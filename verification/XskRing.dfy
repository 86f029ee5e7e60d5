/** The single-producer single-consumer ring of AF_XDP (XTFsPool/include/bpf/xsk.h). */
module XskRing {
  import opened Bits

  /** Counters are 32-bit words. */
  const WORD: nat := 0x1_0000_0000

  function Wrap(x: int): (r: nat)
    ensures r < WORD
  {
    x % WORD
  }

  /** Bitwise and. */
  function BitAnd(x: nat, y: nat): nat {
    if x == 0 || y == 0 then 0 else 2 * BitAnd(x / 2, y / 2) + (x % 2) * (y % 2)
  }

  function Min(a: nat, b: nat): nat {
    if a < b then a else b
  }

  /** The low k bits of a counter: its slot in a ring of 2^k entries. */
  function Slot(x: nat, k: nat): (r: nat)
    ensures r < Pow2(k)
  {
    if k == 0 then 0 else 2 * Slot(x / 2, k - 1) + x % 2
  }

  // ----- Arithmetic of masks and wrapping counters -----

  /** Masking with an odd number keeps the lowest bit. */
  lemma LowBit(x: nat, p: nat)
    requires x > 0 && p > 0
    ensures BitAnd(x, 2 * p - 1) == 2 * BitAnd(x / 2, p - 1) + x % 2
  {
    var y := 2 * p - 1;
    assert y / 2 == p - 1 && y % 2 == 1;
  }

  lemma NoBits(x: nat, y: nat)
    requires x == 0 || y == 0
    ensures BitAnd(x, y) == 0
  {
  }

  lemma SlotStep(x: nat, k: nat)
    ensures Slot(x, 0) == 0 && Slot(x, k + 1) == 2 * Slot(x / 2, k) + x % 2
    ensures Pow2(0) == 1 && Pow2(k + 1) == 2 * Pow2(k) > 0
  {
  }

  lemma {:induction false} MaskIsSlot(x: nat, k: nat)
    ensures BitAnd(x, Pow2(k) - 1) == Slot(x, k)
  {
    hide BitAnd, Slot, Pow2;
    if x == 0 || k == 0 {
      SlotStep(x, 0);
      ZeroSlot(k);
      NoBits(x, Pow2(k) - 1);
    } else {
      MaskIsSlot(x / 2, k - 1);
      SlotStep(x, k - 1);
      LowBit(x, Pow2(k - 1));
    }
  }

  lemma {:induction false} ZeroSlot(k: nat)
    ensures Slot(0, k) == 0
  {
    if k > 0 {
      ZeroSlot(k - 1);
    }
  }

  lemma {:induction false} SlotPeriod(x: nat, k: nat, n: nat)
    requires k <= n
    ensures Slot(x + Pow2(n), k) == Slot(x, k)
  {
    hide Slot, Pow2;
    if k == 0 {
      SlotStep(x, 0);
      SlotStep(x + Pow2(n), 0);
    } else {
      SlotStep(x, n - 1);
      HalfSum(x, Pow2(n - 1));
      SlotPeriod(x / 2, k - 1, n - 1);
      SlotStep(x, k - 1);
      SlotStep(x + Pow2(n), k - 1);
    }
  }

  lemma HalfSum(x: nat, p: nat)
    ensures (x + 2 * p) / 2 == x / 2 + p && (x + 2 * p) % 2 == x % 2
  {
  }

  lemma {:induction false} SizeFits(k: nat)
    requires k <= 31
    ensures Pow2(k) < WORD
    decreases 31 - k
  {
    if k < 31 {
      SizeFits(k + 1);
    } else {
      WordIsPow2();
      assert Pow2(32) == 2 * Pow2(31);
    }
  }

  lemma WrapPeriod(x: nat)
    ensures Wrap(x + WORD) == Wrap(x)
  {
  }

  /** Wrapping a counter does not move its slot. */
  lemma {:induction false} WrapKeepsSlot(a: nat, k: nat)
    requires k <= 32
    ensures Slot(Wrap(a), k) == Slot(a, k)
  {
    hide Slot, Pow2;
    if a >= WORD {
      WrapKeepsSlot(a - WORD, k);
      WordIsPow2();
      SlotPeriod(a - WORD, k, 32);
      WrapPeriod(a - WORD);
      hide Wrap;
    } else {
      assert Wrap(a) == a;
    }
  }

  /** Differences of wrapped counters are exact while the counters are less than a word apart. */
  lemma WrapDifference(x: nat, y: nat)
    requires y <= x < y + WORD
    ensures Wrap(Wrap(x) - Wrap(y)) == x - y
  {
  }

  lemma WrapZero()
    ensures Wrap(0) == 0
  {
  }

  lemma WrapSum(x: nat, y: nat)
    ensures Wrap(Wrap(x) + y) == Wrap(x + y)
  {
  }

  /** Less than the ring size apart, different positions occupy different slots. */
  lemma {:induction false} SlotsDiffer(a: nat, b: nat, k: nat)
    requires a < b < a + Pow2(k)
    ensures Slot(a, k) != Slot(b, k)
  {
    if k > 0 && a % 2 == b % 2 {
      SlotsDiffer(a / 2, b / 2, k - 1);
    }
  }

  // ----- The ring -----

  /** The entries at positions p..p+n of a ring. */
  function Batch<T>(contents: seq<T>, p: nat, n: nat, bits: nat): (s: seq<T>)
    requires |contents| == Pow2(bits)
    ensures |s| == n && forall a :: p <= a < p + n ==> s[a - p] == contents[Slot(a, bits)]
  {
    seq(n, i requires 0 <= i < n => contents[Slot(p + i, bits)])
  }

  /** Both sides of one ring. The cached counters belong to one side each; `producer`, `consumer`
      and the entries are shared. Each method reads or writes each shared counter at most once, so
      that running whole methods in any order covers every interleaving of the two sides. The last
      fields are history: the code neither has nor needs them. */
  class Ring<T> {
    const bits: nat
    const size: nat
    const mask: nat
    const entries: array<T>
    var producer: nat
    var consumer: nat

    // the producing side: cachedCons runs `size` ahead of the consumer counter
    var prodCachedProd: nat
    var prodCachedCons: nat

    // the consuming side
    var consCachedProd: nat
    var consCachedCons: nat

    // history: every entry ever submitted, in order, and the counters without the wrap
    var submitted: seq<T>
    ghost var reserved: nat
    var released: nat
    ghost var taken: nat
    ghost var prodView: nat      // `released` as the producing side last saw it
    ghost var consView: nat      // the number submitted as the consuming side last saw it

    ghost predicate Valid()
      reads this, entries
    {
      && bits <= 31 && size == Pow2(bits) == entries.Length && mask == size - 1 && size < WORD
      && prodView <= released <= taken <= consView <= |submitted| <= reserved <= prodView + size
      && producer == Wrap(|submitted|) && consumer == Wrap(released)
      && prodCachedProd == Wrap(reserved) && prodCachedCons == Wrap(prodView + size)
      && consCachedProd == Wrap(consView) && consCachedCons == Wrap(taken)
      && (forall a :: released <= a < |submitted| ==> entries[Slot(a, bits)] == submitted[a])
    }

    /** The entries submitted and not released, from the i-th on. */
    function Queue(i: nat): seq<T>
      reads this
    {
      if released + i <= |submitted| then submitted[released + i..] else []
    }

    /** Entries in use never exceed the ring. */
    lemma Bounds()
      requires Valid()
      ensures prodView <= released <= taken <= consView <= |submitted| <= reserved <= prodView + size && size == Pow2(bits)
    {
    }

    constructor (bits: nat, blank: T)
      requires bits <= 31
      ensures Valid() && this.bits == bits && forall i :: 0 <= i < entries.Length ==> entries[i] == blank
      ensures submitted == [] && reserved == released == taken == prodView == consView == 0 && fresh(entries)
    {
      hide Pow2, Slot;
      SizeFits(bits);
      this.bits, size, mask := bits, Pow2(bits), Pow2(bits) - 1;
      entries := new T[Pow2(bits)](_ => blank);
      producer, consumer, prodCachedProd, consCachedProd, consCachedCons := 0, 0, 0, 0, 0;
      prodCachedCons := Pow2(bits);
      submitted, reserved, released, taken, prodView, consView := [], 0, 0, 0, 0, 0;
    }

    /** xsk_prod_nb_free: the free entries the producer knows of, after looking at the consumer
        counter if it does not know of nb. */
    method NbFree(nb: nat) returns (free: nat)
      requires Valid()
      modifies this`prodCachedCons, this`prodView
      ensures Valid()
      ensures free == prodView + size - reserved <= size - (reserved - released)
      ensures prodView == if old(prodView) + size - reserved >= nb then old(prodView) else released
    {
      hide Pow2, Slot, Wrap;
      WrapDifference(prodView + size, reserved);
      var known := Wrap(prodCachedCons - prodCachedProd);
      if known >= nb {
        return known;
      }
      WrapSum(released, size);
      WrapDifference(released + size, reserved);
      prodView := released;
      prodCachedCons := Wrap(consumer + size);
      free := Wrap(prodCachedCons - prodCachedProd);
    }

    /** xsk_ring_prod__reserve succeeds exactly when nb entries are free. */
    method Reserve(nb: nat) returns (n: nat, idx: nat)
      requires Valid()
      modifies this`prodCachedCons, this`prodCachedProd, this`prodView, this`reserved
      ensures Valid()
      ensures n == (if nb <= size - (old(reserved) - released) then nb else 0)
      ensures reserved == old(reserved) + n
      ensures prodView == if old(prodView) + size - old(reserved) >= nb then old(prodView) else released
      ensures n > 0 ==> idx == Wrap(old(reserved))
    {
      hide Pow2, Slot, Wrap;
      idx := 0;
      var free := NbFree(nb);
      if free < nb {
        return 0, idx;
      }
      WrapSum(reserved, nb);
      idx := prodCachedProd;
      prodCachedProd := Wrap(prodCachedProd + nb);
      reserved := reserved + nb;
      n := nb;
    }

    /** xsk_ring_prod__fill_addr: the slot of an index is found with the mask. */
    method SlotOf(idx: nat, ghost a: nat) returns (slot: nat)
      requires Valid() && idx == Wrap(a)
      ensures slot == Slot(a, bits) < entries.Length
    {
      MaskIsSlot(idx, bits);
      WrapKeepsSlot(a, bits);
      slot := BitAnd(idx, mask);
    }

    /** Write a reserved entry: no entry submitted and not yet released is touched, nor any other
        slot of the ring. */
    method Write(idx: nat, x: T, ghost a: nat)
      requires Valid() && |submitted| <= a < reserved && idx == Wrap(a)
      modifies entries
      ensures Valid() && entries[Slot(a, bits)] == x
      ensures forall b :: released <= b < released + size && b != a ==> entries[Slot(b, bits)] == old(entries[Slot(b, bits)])
    {
      hide Pow2, Slot;
      var slot := SlotOf(idx, a);
      forall b | released <= b < released + size && b != a
        ensures Slot(b, bits) != slot
      {
        if b < a {
          SlotsDiffer(b, a, bits);
        } else {
          SlotsDiffer(a, b, bits);
        }
      }
      entries[slot] := x;
    }

    /** xsk_ring_prod__submit. */
    method Submit(nb: nat)
      requires Valid() && |submitted| + nb <= reserved
      modifies this`producer, this`submitted
      ensures Valid() && |submitted| == old(|submitted|) + nb && old(submitted) <= submitted
      ensures forall a :: old(|submitted|) <= a < |submitted| ==> submitted[a] == entries[Slot(a, bits)]
    {
      hide Pow2, Slot, Wrap;
      WrapSum(|submitted|, nb);
      producer := Wrap(producer + nb);
      submitted := submitted + Batch(entries[..], |submitted|, nb, bits);
    }

    /** xsk_cons_nb_avail: at most nb of the entries the consumer knows of, after looking at the
        producer counter if it knows of none. */
    method NbAvail(nb: nat) returns (n: nat)
      requires Valid()
      modifies this`consCachedProd, this`consView
      ensures Valid()
      ensures n == if consView - taken > nb then nb else consView - taken
      ensures consView == if old(consView) == taken then |submitted| else old(consView)
    {
      hide Pow2, Slot, Wrap;
      WrapDifference(consView, taken);
      var known := Wrap(consCachedProd - consCachedCons);
      if known == 0 {
        WrapDifference(|submitted|, taken);
        consCachedProd, consView := producer, |submitted|;
        known := Wrap(consCachedProd - consCachedCons);
      }
      n := if known > nb then nb else known;
    }

    /** xsk_ring_cons__peek takes at most nb entries, and at least one if there is one. */
    method Peek(nb: nat) returns (n: nat, idx: nat)
      requires Valid()
      modifies this`consCachedProd, this`consCachedCons, this`consView, this`taken
      ensures Valid()
      ensures consView == if old(consView) == old(taken) then |submitted| else old(consView)
      ensures n == Min(nb, consView - old(taken)) && taken == old(taken) + n <= |submitted|
      ensures n == 0 <==> nb == 0 || old(taken) == |submitted|
      ensures n > 0 ==> idx == Wrap(old(taken))
    {
      hide Pow2, Slot, Wrap;
      idx := 0;
      n := NbAvail(nb);
      if n > 0 {
        WrapSum(taken, n);
        idx := consCachedCons;
        consCachedCons := Wrap(consCachedCons + n);
        taken := taken + n;
      }
    }

    /** xsk_ring_cons__rx_desc: an entry taken and not yet released is the one submitted there. */
    method Read(idx: nat, ghost a: nat) returns (x: T)
      requires Valid() && released <= a < taken && idx == Wrap(a)
      ensures x == submitted[a]
    {
      var slot := SlotOf(idx, a);
      x := entries[slot];
    }

    /** xsk_ring_cons__release. */
    method Release(nb: nat)
      requires Valid() && released + nb <= taken
      modifies this`consumer, this`released
      ensures Valid() && released == old(released) + nb
    {
      hide Pow2, Slot, Wrap;
      WrapSum(released, nb);
      consumer := Wrap(consumer + nb);
      released := released + nb;
    }
  }

  // ----- Whole interleavings -----

  /** One step of either side. The producer writes the i-th entry it has reserved and not yet
      submitted; the consumer reads its taken entries in order and releases what it has read. */
  datatype Step<T> =
    | Reserve(nb: nat) | Write(i: nat, x: T) | Submit(nb: nat)
    | Peek(nb: nat) | Read | Release(nb: nat)

  // ----- What the steps mean -----

  /** A queue without slots, masks and wrapping counters: the values of all positions ever reserved,
      and how many positions have been submitted, seen by the consumer, taken, read and released. */
  datatype Ideal<T> = Ideal(cells: seq<T>, submitted: nat, known: nat, taken: nat, read: nat, released: nat)

  /** What position a shows: its last value, or else what was left in its place one ring before. */
  ghost function Cell<T>(cells: seq<T>, size: nat, blank: T, a: nat): T {
    if a < |cells| then cells[a] else if size <= a < |cells| + size then cells[a - size] else blank
  }

  ghost function Extended<T>(cells: seq<T>, size: nat, blank: T, n: nat): (r: seq<T>)
    ensures |r| == |cells| + n && forall a :: 0 <= a < |r| ==> r[a] == Cell(cells, size, blank, a)
  {
    cells + seq(n, i requires 0 <= i => Cell(cells, size, blank, |cells| + i))
  }

  ghost function Next<T>(q: Ideal<T>, size: nat, blank: T, step: Step<T>): Ideal<T> {
    match step
    case Reserve(nb) => if |q.cells| + nb <= q.released + size then q.(cells := Extended(q.cells, size, blank, nb)) else q
    case Write(i, x) => if q.submitted + i < |q.cells| then q.(cells := q.cells[q.submitted + i := x]) else q
    case Submit(nb) => q.(submitted := if q.submitted + nb <= |q.cells| then q.submitted + nb else |q.cells|)
    case Peek(nb) =>
      var known := if q.known == q.taken then q.submitted else q.known;
      q.(known := known, taken := if q.taken + nb <= known then q.taken + nb else known)
    case Read => if q.read < q.taken then q.(read := q.read + 1) else q
    case Release(nb) => q.(released := if q.released + nb <= q.read then q.released + nb else q.read)
  }

  ghost function Ideally<T>(steps: seq<Step<T>>, size: nat, blank: T): Ideal<T> {
    if steps == [] then Ideal([], 0, 0, 0, 0, 0) else Next(Ideally(steps[..|steps| - 1], size, blank), size, blank, steps[|steps| - 1])
  }

  ghost predicate Ordered<T>(q: Ideal<T>, size: nat) {
    q.released <= q.read <= q.taken <= q.known <= q.submitted <= |q.cells| <= q.released + size
  }

  /** A step keeps the order of the counters, never changes a value once submitted, and never takes
      back what was submitted or read. */
  lemma NextKeeps<T>(q: Ideal<T>, size: nat, blank: T, step: Step<T>)
    requires Ordered(q, size)
    ensures var r := Next(q, size, blank, step);
            && Ordered(r, size) && q.submitted <= r.submitted && q.read <= r.read
            && r.cells[..q.submitted] == q.cells[..q.submitted]
  {
    var r := Next(q, size, blank, step);
    assert forall a :: 0 <= a < q.submitted ==> r.cells[a] == q.cells[a];
  }

  lemma {:induction false} AlwaysOrdered<T>(steps: seq<Step<T>>, size: nat, blank: T)
    ensures Ordered(Ideally(steps, size, blank), size)
  {
    hide Next;
    if steps != [] {
      var front := steps[..|steps| - 1];
      AlwaysOrdered(front, size, blank);
      NextKeeps(Ideally(front, size, blank), size, blank, steps[|steps| - 1]);
    }
  }

  /** Once submitted, a value never changes, and reading goes on where it stopped. */
  ghost predicate Continues<T>(q: Ideal<T>, r: Ideal<T>) {
    && q.submitted <= r.submitted <= |r.cells| && q.submitted <= |q.cells| && q.read <= r.read <= r.submitted
    && r.cells[..q.submitted] == q.cells[..q.submitted]
  }

  lemma ContinuesOn<T>(p: Ideal<T>, q: Ideal<T>, r: Ideal<T>)
    requires Continues(p, q) && q.submitted <= r.submitted <= |r.cells| && q.read <= r.read <= r.submitted
    requires r.cells[..q.submitted] == q.cells[..q.submitted]
    ensures Continues(p, r)
  {
    assert r.cells[..p.submitted] == r.cells[..q.submitted][..p.submitted];
    assert q.cells[..p.submitted] == q.cells[..q.submitted][..p.submitted];
  }

  lemma {:induction false} SubmittedStays<T>(steps: seq<Step<T>>, k: nat, size: nat, blank: T)
    requires k <= |steps|
    ensures Continues(Ideally(steps[..k], size, blank), Ideally(steps, size, blank))
    decreases |steps|
  {
    hide Next, Ordered;
    if k == |steps| {
      assert steps[..k] == steps;
      AlwaysOrdered(steps, size, blank);
      OrderedContinues(Ideally(steps, size, blank), size);
    } else {
      var front := steps[..|steps| - 1];
      assert front[..k] == steps[..k];
      SubmittedStays(front, k, size, blank);
      AlwaysOrdered(front, size, blank);
      NextKeeps(Ideally(front, size, blank), size, blank, steps[|steps| - 1]);
      AlwaysOrdered(steps, size, blank);
      OrderedContinues(Ideally(steps, size, blank), size);
      ContinuesOn(Ideally(steps[..k], size, blank), Ideally(front, size, blank), Ideally(steps, size, blank));
    }
  }

  lemma OrderedContinues<T>(q: Ideal<T>, size: nat)
    requires Ordered(q, size)
    ensures Continues(q, q)
  {
  }

  lemma IdeallyPush<T>(steps: seq<Step<T>>, step: Step<T>, size: nat, blank: T)
    ensures Ideally(steps + [step], size, blank) == Next(Ideally(steps, size, blank), size, blank, step)
  {
    assert (steps + [step])[..|steps|] == steps;
  }

  // ----- What a client can rely on -----

  ghost function Carry<T>(q: Ideal<T>, steps: seq<Step<T>>, size: nat, blank: T): Ideal<T> {
    if steps == [] then q else Next(Carry(q, steps[..|steps| - 1], size, blank), size, blank, steps[|steps| - 1])
  }

  lemma {:induction false} CarriedOn<T>(steps: seq<Step<T>>, more: seq<Step<T>>, size: nat, blank: T)
    ensures Ideally(steps + more, size, blank) == Carry(Ideally(steps, size, blank), more, size, blank)
  {
    hide Next;
    if more == [] {
      assert steps + more == steps;
    } else {
      var front := more[..|more| - 1];
      assert steps + more == (steps + front) + [more[|more| - 1]];
      CarriedOn(steps, front, size, blank);
      IdeallyPush(steps + front, more[|more| - 1], size, blank);
    }
  }

  lemma {:induction false} CarryJoin<T>(q: Ideal<T>, a: seq<Step<T>>, b: seq<Step<T>>, size: nat, blank: T)
    ensures Carry(q, a + b, size, blank) == Carry(Carry(q, a, size, blank), b, size, blank)
  {
    hide Next;
    if b == [] {
      assert a + b == a;
    } else {
      assert (a + b)[..|a + b| - 1] == a + b[..|b| - 1];
      CarryJoin(q, a, b[..|b| - 1], size, blank);
    }
  }

  /** Writing the entries of a batch in order. */
  function Writes<T>(xs: seq<T>): (w: seq<Step<T>>)
    ensures |w| == |xs| && forall i :: 0 <= i < |w| ==> w[i] == Write(i, xs[i])
  {
    seq(|xs|, i requires 0 <= i < |xs| => Write(i, xs[i]))
  }

  function Reads<T>(n: nat): (r: seq<Step<T>>)
    ensures |r| == n && forall i :: 0 <= i < n ==> r[i] == Step<T>.Read
  {
    seq(n, _ => Step<T>.Read)
  }

  lemma {:induction false} WritesDone<T>(q: Ideal<T>, xs: seq<T>, k: nat, size: nat, blank: T)
    requires q.submitted + |xs| <= |q.cells| && k <= |xs|
    ensures var r := Carry(q, Writes(xs)[..k], size, blank);
            && |r.cells| == |q.cells| && r == q.(cells := r.cells)
            && forall a :: 0 <= a < |q.cells| ==> r.cells[a] == if q.submitted <= a < q.submitted + k then xs[a - q.submitted] else q.cells[a]
  {
    hide Writes;
    if k > 0 {
      WritesDone(q, xs, k - 1, size, blank);
      assert Writes(xs)[..k][..k - 1] == Writes(xs)[..k - 1];
    }
  }

  lemma {:induction false} ReadsDone<T>(q: Ideal<T>, n: nat, size: nat, blank: T)
    requires q.read + n <= q.taken
    ensures Carry(q, Reads(n), size, blank) == q.(read := q.read + n)
  {
    if n > 0 {
      assert Reads<T>(n)[..n - 1] == Reads<T>(n - 1);
      ReadsDone(q, n - 1, size, blank);
    }
  }

  /** A batch reserved, written in order and submitted. */
  lemma BatchSubmitted<T>(q: Ideal<T>, xs: seq<T>, size: nat, blank: T)
    requires Ordered(q, size) && q.submitted == |q.cells| && |q.cells| + |xs| <= q.released + size
    ensures Carry(q, [Reserve(|xs|)] + Writes(xs) + [Submit(|xs|)], size, blank) == q.(cells := q.cells + xs, submitted := q.submitted + |xs|)
  {
    hide Writes, Extended;
    var r, w := [Step<T>.Reserve(|xs|)], Writes(xs);
    var reserved := Next(q, size, blank, Step.Reserve(|xs|));
    assert r[..0] == [];
    assert Carry(q, r, size, blank) == reserved;
    CarryJoin(q, r, w, size, blank);
    WritesDone(reserved, xs, |xs|, size, blank);
    assert w[..|xs|] == w;
    var written := Carry(q, r + w, size, blank);
    assert written.cells == q.cells + xs;
    assert (r + w + [Submit(|xs|)])[..|r + w|] == r + w;
  }

  /** After any history with nothing pending and room for them, a batch of values written into reserved
      entries and submitted is what is read next, in order. */
  lemma WrittenIsRead<T>(steps: seq<Step<T>>, xs: seq<T>, size: nat, blank: T)
    requires var q := Ideally(steps, size, blank); q.read == |q.cells| && |q.cells| + |xs| <= q.released + size
    ensures var q := Ideally(steps, size, blank);
            var r := Ideally(steps + ([Reserve(|xs|)] + Writes(xs) + [Submit(|xs|)] + [Peek(|xs|)] + Reads(|xs|)), size, blank);
            r.cells == q.cells + xs && r.read == r.submitted == |r.cells| && r.released == q.released
  {
    hide Ideally, Writes, Reads;
    AlwaysOrdered(steps, size, blank);
    var q, n := Ideally(steps, size, blank), |xs|;
    var batch := [Step.Reserve(n)] + Writes(xs) + [Submit(n)];
    CarriedOn(steps, batch + [Peek(n)] + Reads(n), size, blank);
    BatchSubmitted(q, xs, size, blank);
    var s := q.(cells := q.cells + xs, submitted := q.submitted + n);
    assert (batch + [Peek(n)])[..|batch|] == batch;
    var p := Next(s, size, blank, Step.Peek(n));
    assert Carry(q, batch + [Peek(n)], size, blank) == p;
    CarryJoin(q, batch + [Peek(n)], Reads(n), size, blank);
    ReadsDone(p, n, size, blank);
  }

  /** What has been read and is released can be reserved again, and no more than that. */
  lemma ReleasedIsFree<T>(steps: seq<Step<T>>, m: nat, nb: nat, size: nat, blank: T)
    requires var q := Ideally(steps, size, blank); q.released + m <= q.read
    ensures var q, r := Ideally(steps, size, blank), Ideally(steps + [Release(m)], size, blank);
            var room := size - (|q.cells| - q.released);
            && r == q.(released := q.released + m)
            && (nb <= room + m ==> |Ideally(steps + [Release(m)] + [Reserve(nb)], size, blank).cells| == |q.cells| + nb)
            && (nb > room + m ==> Ideally(steps + [Release(m)] + [Reserve(nb)], size, blank) == r)
            && (nb <= room ==> |Ideally(steps + [Reserve(nb)], size, blank).cells| == |q.cells| + nb)
            && (nb > room ==> Ideally(steps + [Reserve(nb)], size, blank) == q)
  {
    hide Ideally, Extended;
    AlwaysOrdered(steps, size, blank);
    IdeallyPush(steps, Release(m), size, blank);
    IdeallyPush(steps, Reserve(nb), size, blank);
    IdeallyPush(steps + [Release(m)], Reserve(nb), size, blank);
  }

  /** Write number t of a run goes to a position that is reserved and not submitted. */
  ghost predicate WritesTo<T>(steps: seq<Step<T>>, t: nat, a: nat, size: nat, blank: T)
    requires t < |steps|
  {
    var q := Ideally(steps[..t], size, blank);
    steps[t].Write? && q.submitted + steps[t].i == a < |q.cells|
  }

  lemma WriteKeeps<T>(q: Ideal<T>, step: Step<T>, a: nat, size: nat, blank: T)
    requires Ordered(q, size) && a < |q.cells|
    ensures var r := Next(q, size, blank, step);
            && a < |r.cells|
            && r.cells[a] == if step.Write? && q.submitted + step.i == a then step.x else q.cells[a]
  {
  }

  /** The value at a position is the last one written to it. */
  lemma {:induction false} LastWriteStays<T>(steps: seq<Step<T>>, t: nat, a: nat, n: nat, size: nat, blank: T)
    requires t < n <= |steps| && WritesTo(steps, t, a, size, blank)
    requires forall u :: t < u < n ==> !WritesTo(steps, u, a, size, blank)
    ensures var q := Ideally(steps[..n], size, blank); a < |q.cells| && q.cells[a] == steps[t].x
    decreases n
  {
    hide Next, Ordered;
    var front := steps[..n - 1];
    assert steps[..n] == front + [steps[n - 1]];
    IdeallyPush(front, steps[n - 1], size, blank);
    AlwaysOrdered(front, size, blank);
    if t < n - 1 {
      LastWriteStays(steps, t, a, n - 1, size, blank);
      assert !WritesTo(steps, n - 1, a, size, blank);
    }
    WriteKeeps(Ideally(front, size, blank), steps[n - 1], a, size, blank);
  }

  /** How far each step moves each counter. */
  lemma CountersMove<T>(q: Ideal<T>, step: Step<T>, size: nat, blank: T)
    requires Ordered(q, size)
    ensures var r := Next(q, size, blank, step);
            && |r.cells| - |q.cells| == (if step.Reserve? && |q.cells| + step.nb <= q.released + size then step.nb else 0)
            && r.submitted - q.submitted == (if step.Submit? then Min(step.nb, |q.cells| - q.submitted) else 0)
            && r.taken - q.taken == (if step.Peek? then Min(step.nb, (if q.known == q.taken then q.submitted else q.known) - q.taken) else 0)
            && r.read - q.read == (if step.Read? && q.read < q.taken then 1 else 0)
            && r.released - q.released == (if step.Release? then Min(step.nb, q.read - q.released) else 0)
            && (r.known != q.known ==> step.Peek? && q.known == q.taken && r.known == q.submitted)
  {
  }

  /** Every slot of the ring shows what the ideal queue says, from the first position not released. */
  ghost predicate Shows<T>(entries: seq<T>, bits: nat, released: nat, cells: seq<T>, blank: T)
    requires |entries| == Pow2(bits)
  {
    forall a :: released <= a < released + |entries| ==> entries[Slot(a, bits)] == Cell(cells, |entries|, blank, a)
  }

  lemma ShowsReserved<T>(entries: seq<T>, bits: nat, released: nat, cells: seq<T>, blank: T, n: nat)
    requires |entries| == Pow2(bits) && Shows(entries, bits, released, cells, blank) && released <= |cells| && |cells| + n <= released + |entries|
    ensures Shows(entries, bits, released, Extended(cells, |entries|, blank, n), blank)
  {
    hide Slot, Pow2, Extended;
    var more := Extended(cells, |entries|, blank, n);
    forall a | released <= a < released + |entries|
      ensures Cell(more, |entries|, blank, a) == Cell(cells, |entries|, blank, a)
    {
    }
  }

  lemma ShowsWritten<T>(before: seq<T>, after: seq<T>, bits: nat, released: nat, cells: seq<T>, blank: T, a: nat, x: T)
    requires |before| == |after| == Pow2(bits) && Shows(before, bits, released, cells, blank) && released <= a < |cells| <= released + |before|
    requires after[Slot(a, bits)] == x
    requires forall b :: released <= b < released + |before| && b != a ==> after[Slot(b, bits)] == before[Slot(b, bits)]
    ensures Shows(after, bits, released, cells[a := x], blank)
  {
    hide Slot, Pow2;
  }

  lemma ShowsReleased<T>(entries: seq<T>, bits: nat, released: nat, cells: seq<T>, blank: T, n: nat)
    requires |entries| == Pow2(bits) && Shows(entries, bits, released, cells, blank) && released + n <= |cells| <= released + |entries|
    ensures Shows(entries, bits, released + n, cells, blank)
  {
    hide Slot, Pow2;
    forall a | released + n <= a < released + n + |entries|
      ensures entries[Slot(a, bits)] == Cell(cells, |entries|, blank, a)
    {
      if a >= released + |entries| {
        SlotPeriod(a - |entries|, bits, bits);
        assert entries[Slot(a - |entries|, bits)] == Cell(cells, |entries|, blank, a - |entries|);
      }
    }
  }

  lemma ShowsBatch<T>(entries: seq<T>, bits: nat, released: nat, cells: seq<T>, blank: T, p: nat, n: nat)
    requires |entries| == Pow2(bits) && Shows(entries, bits, released, cells, blank)
    requires released <= p && p + n <= |cells| <= released + |entries|
    ensures forall a :: p <= a < p + n ==> entries[Slot(a, bits)] == cells[a]
  {
    hide Slot, Pow2;
  }

  /** The two sides with their own variables, beside the ideal queue. */
  class Session<T> {
    const ring: Ring<T>
    const blank: T
    var read: seq<T>
    var open: nat    // reserved and not submitted
    var first: nat   // index of the first of them
    var unread: nat  // taken and not read
    var next: nat    // index of the first of them
    var held: nat    // read and not released
    ghost var ideal: Ideal<T>

    /** The counters of the ring are those of the ideal queue. */
    ghost predicate Counted()
      reads this, ring
    {
      && Ordered(ideal, ring.size)
      && |ideal.cells| == ring.reserved && ring.submitted == ideal.cells[..ideal.submitted]
      && ideal.known == ring.consView && ideal.taken == ring.taken && ideal.released == ring.released
      && read == ideal.cells[..ideal.read]
      && open == ring.reserved - |ring.submitted| && first == Wrap(|ring.submitted|)
      && unread == ring.taken - ideal.read && next == Wrap(ideal.read) && held == ideal.read - ring.released
    }

    ghost predicate Valid()
      reads this, ring, ring.entries
    {
      && ring.Valid() && ring.entries.Length == ring.size == Pow2(ring.bits) && Counted()
      && Shows(ring.entries[..], ring.bits, ring.released, ideal.cells, blank)
    }

    constructor (bits: nat, blank: T)
      requires bits <= 31
      ensures Valid() && ideal == Ideal([], 0, 0, 0, 0, 0) && ring.bits == bits && this.blank == blank
      ensures fresh(ring) && fresh(ring.entries)
    {
      hide Pow2, Slot, Wrap;
      WrapZero();
      this.blank := blank;
      ring := new Ring<T>(bits, blank);
      read, open, first, unread, next, held := [], 0, 0, 0, 0, 0;
      ideal := Ideal([], 0, 0, 0, 0, 0);
    }

    method DoReserve(nb: nat)
      requires Valid()
      modifies this, ring
      ensures Valid() && ideal == Next(old(ideal), ring.size, blank, Step.Reserve(nb))
    {
      hide Pow2, Wrap, Shows, Ring.Valid, Extended;
      var n, idx := ring.Reserve(nb);
      if n > 0 {
        ShowsReserved(ring.entries[..], ring.bits, ring.released, ideal.cells, blank, nb);
      }
      NextKeeps(ideal, ring.size, blank, Step.Reserve(nb));
      ExtendedByNone(ideal.cells, ring.size, blank);
      open := open + n;
      ideal := Next(ideal, ring.size, blank, Step.Reserve(nb));
    }

    method DoWrite(i: nat, x: T)
      requires Valid()
      modifies this, ring.entries
      ensures Valid() && ideal == Next(old(ideal), ring.size, blank, Step.Write(i, x))
    {
      hide Pow2, Slot, Wrap, Shows, Ring.Valid;
      NextKeeps(ideal, ring.size, blank, Step.Write(i, x));
      if i < open {
        ghost var before := ring.entries[..];
        WrapSum(|ring.submitted|, i);
        ring.Write(Wrap(first + i), x, |ring.submitted| + i);
        ShowsWritten(before, ring.entries[..], ring.bits, ring.released, ideal.cells, blank, ideal.submitted + i, x);
      }
      ideal := Next(ideal, ring.size, blank, Step.Write(i, x));
    }

    method DoSubmit(nb: nat)
      requires Valid()
      modifies this, ring
      ensures Valid() && ideal == Next(old(ideal), ring.size, blank, Step.Submit(nb))
    {
      hide Pow2, Slot, Wrap, Shows, Ring.Valid;
      var n := Min(nb, open);
      NextKeeps(ideal, ring.size, blank, Step.Submit(nb));
      ShowsBatch(ring.entries[..], ring.bits, ring.released, ideal.cells, blank, ideal.submitted, n);
      WrapSum(|ring.submitted|, n);
      ring.Submit(n);
      open, first := open - n, Wrap(first + n);
      ideal := Next(ideal, ring.size, blank, Step.Submit(nb));
      assert ring.submitted == ideal.cells[..ideal.submitted];
    }

    method DoPeek(nb: nat)
      requires Valid()
      modifies this, ring
      ensures Valid() && ideal == Next(old(ideal), ring.size, blank, Step.Peek(nb))
    {
      hide Pow2, Slot, Wrap, Shows, Ring.Valid;
      NextKeeps(ideal, ring.size, blank, Step.Peek(nb));
      var n, idx := ring.Peek(nb);
      unread := unread + n;
      ideal := Next(ideal, ring.size, blank, Step.Peek(nb));
    }

    method DoRead()
      requires Valid()
      modifies this
      ensures Valid() && ideal == Next(old(ideal), ring.size, blank, Step.Read)
    {
      hide Pow2, Slot, Wrap, Shows, Ring.Valid;
      NextKeeps(ideal, ring.size, blank, Step.Read);
      if unread > 0 {
        var x := ring.Read(next, ideal.read);
        WrapSum(ideal.read, 1);
        read := read + [x];
        unread, next, held := unread - 1, Wrap(next + 1), held + 1;
      }
      ideal := Next(ideal, ring.size, blank, Step.Read);
    }

    method DoRelease(nb: nat)
      requires Valid()
      modifies this, ring
      ensures Valid() && ideal == Next(old(ideal), ring.size, blank, Step.Release(nb))
    {
      hide Pow2, Slot, Wrap, Shows, Ring.Valid;
      var n := Min(nb, held);
      NextKeeps(ideal, ring.size, blank, Step.Release(nb));
      ShowsReleased(ring.entries[..], ring.bits, ring.released, ideal.cells, blank, n);
      ring.Release(n);
      held := held - n;
      ideal := Next(ideal, ring.size, blank, Step.Release(nb));
    }

    method Do(step: Step<T>)
      requires Valid()
      modifies this, ring, ring.entries
      ensures Valid() && ideal == Next(old(ideal), ring.size, blank, step)
    {
      hide Next, Counted, Shows, Ordered, Ring.Valid;
      match step {
        case Reserve(nb) => DoReserve(nb);
        case Write(i, x) => DoWrite(i, x);
        case Submit(nb) => DoSubmit(nb);
        case Peek(nb) => DoPeek(nb);
        case Read => DoRead();
        case Release(nb) => DoRelease(nb);
      }
    }
  }

  lemma ExtendedByNone<T>(cells: seq<T>, size: nat, blank: T)
    ensures Extended(cells, size, blank, 0) == cells
  {
  }

  /** For every interleaving of the two sides, on a ring of any power-of-two size and across any
      number of wrap-arounds: what is produced, what is read and how many entries are in use are
      those of the ideal queue. So the consumer reads exactly the values written and submitted, in
      order and without gaps or repetition, and entries in use never exceed the ring. */
  method Interleave<T>(bits: nat, blank: T, steps: seq<Step<T>>) returns (read: seq<T>, produced: seq<T>, inUse: nat)
    requires bits <= 31
    ensures var q := Ideally(steps, Pow2(bits), blank);
            && Ordered(q, Pow2(bits))
            && read == q.cells[..q.read] && produced == q.cells[..q.submitted] && inUse == |q.cells| - q.released
    ensures read <= produced && inUse <= Pow2(bits) && |produced| - |read| <= inUse
  {
    hide Pow2, Slot, Wrap, Next;
    var s := new Session<T>(bits, blank);
    for i := 0 to |steps|
      invariant s.Valid() && fresh(s) && fresh(s.ring) && fresh(s.ring.entries) && s.ring.bits == bits && s.blank == blank
      invariant s.ideal == Ideally(steps[..i], Pow2(bits), blank)
    {
      assert steps[..i + 1][..i] == steps[..i];
      s.Do(steps[i]);
    }
    assert steps[..|steps|] == steps;
    read, produced := s.read, s.ring.submitted;
    inUse := s.open + |produced| - (|read| - s.held);
  }
}
