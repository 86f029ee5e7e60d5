/** What a client of libbpf's hash map can rely on, told by its own calls and their outcomes
    (lib/libbpf/src/hashmap.c, hashmap.h). */
module MapLaws {
  import opened Bits
  import opened Options
  import opened Multimap

  // ----- The capacity -----

  /** A table of 2^bits buckets, or none, is the smallest one for n entries. */
  ghost predicate Tight(bits: nat, n: nat) {
    if n == 0 then bits == 0 else bits >= 2 && 4 * n / 3 <= Pow2(bits) && (bits == 2 || 4 * n / 3 > Pow2(bits - 1))
  }

  ghost function Larger(m: nat, n: nat): nat {
    if m < n then n else m
  }

  /** The largest number of entries after any of the operations. */
  ghost function Peak<K, V, N>(ops: seq<Operation<K, V>>, name: K -> N): nat {
    if ops == [] then 0 else Larger(Peak(ops[..|ops| - 1], name), Run(ops, name).size)
  }

  lemma TightGrows(bits: nat, n: nat)
    requires Tight(bits, n) && (bits == 0 || (n + 1) * 4 / 3 > Pow2(bits))
    ensures Tight(NextBits(bits), n + 1)
  {
    if bits == 0 {
      assert n == 0;
    } else {
      assert Pow2(bits + 1) == 2 * Pow2(bits) && Pow2(bits) >= 4 by { AtLeastFour(bits); }
    }
  }

  lemma {:induction false} AtLeastFour(bits: nat)
    requires bits >= 2
    ensures Pow2(bits) >= 4
  {
    if bits > 2 {
      AtLeastFour(bits - 1);
    }
  }

  /** Below the peak there is room. */
  lemma TightHasRoom(bits: nat, n: nat, size: nat)
    requires Tight(bits, n) && size < n
    ensures bits != 0 && !((size + 1) * 4 / 3 > Pow2(bits))
  {
  }

  lemma TightStep<K, V, N>(b: Book<N, (K, V)>, op: Operation<K, V>, name: K -> N, n: nat)
    requires Tight(b.bits, n) && b.size <= n && (op.Insertion? ==> op.canAllocate)
    ensures var c := Perform(b, op, name).1; c.size <= b.size + 1 && Tight(c.bits, Larger(n, c.size))
  {
    hide Pow2, Tight;
    if b.size < n {
      TightHasRoom(b.bits, n, b.size);
    } else if NeedsToGrow(b) {
      TightGrows(b.bits, n);
    } else {
      TightStays(b.bits, n);
    }
  }

  lemma TightStays(bits: nat, n: nat)
    requires Tight(bits, n) && bits != 0 && !((n + 1) * 4 / 3 > Pow2(bits))
    ensures Tight(bits, n + 1)
  {
  }

  lemma {:induction false} PeakIsTight<K, V, N>(ops: seq<Operation<K, V>>, name: K -> N)
    requires forall i :: 0 <= i < |ops| && ops[i].Insertion? ==> ops[i].canAllocate
    ensures Run(ops, name).size <= Peak(ops, name) && Tight(Run(ops, name).bits, Peak(ops, name))
  {
    hide Perform, Tight;
    if ops == [] {
      assert Tight(0, 0) by { NoneIsTight(); }
    } else {
      var front := ops[..|ops| - 1];
      PeakIsTight(front, name);
      TightStep(Run(front, name), ops[|ops| - 1], name, Peak(front, name));
    }
  }

  lemma NoneIsTight()
    ensures Tight(0, 0)
  {
  }

  /** If entries can always be allocated, the capacity is at any time the least power of two from four on
      that four thirds of the largest number of entries so far fit into, and there is no table before
      the first entry. Failures of the table to grow do not matter, nor do deletions. */
  lemma CapacityLaw<K, V, N>(ops: seq<Operation<K, V>>, name: K -> N)
    requires forall i :: 0 <= i < |ops| && ops[i].Insertion? ==> ops[i].canAllocate
    ensures var bits, n := Run(ops, name).bits, Peak(ops, name);
            if n == 0 then bits == 0 else bits >= 2 && 4 * n / 3 <= Pow2(bits) && forall k :: 2 <= k < bits ==> 4 * n / 3 > Pow2(k)
  {
    hide Run, Peak;
    PeakIsTight(ops, name);
    var bits := Run(ops, name).bits;
    forall k | 2 <= k < bits
      ensures Pow2(k) <= Pow2(bits - 1)
    {
      Pow2Grows(k, bits - 1);
    }
  }

  lemma {:induction false} Pow2Grows(j: nat, k: nat)
    requires j <= k
    ensures Pow2(j) <= Pow2(k)
  {
    if j < k {
      Pow2Grows(j, k - 1);
    }
  }

  /** When a new pair is to be stored the table is made, or doubled exactly when four thirds of the new
      number of entries do not fit, even if the entry itself cannot be allocated then. */
  lemma NewPairCapacity<K, V, N>(b: Book<N, (K, V)>, op: Operation<K, V>, name: K -> N)
    requires op.Insertion? && op.strategy != Update && (op.strategy == Append || Pairs(b, name(op.key)) == [])
    requires op.canGrow && b.bits < MAX_CAP_BITS
    ensures Pow2(Perform(b, op, name).1.bits) == if b.bits == 0 then 4 else if (b.size + 1) * 4 / 3 > Pow2(b.bits) then 2 * Pow2(b.bits) else Pow2(b.bits)
  {
    assert Pow2(2) == 4 && Pow2(b.bits + 1) == 2 * Pow2(b.bits);
  }

  // ----- What each name stands for -----

  /** Call i stored a pair under a name. */
  ghost predicate Stores<K, V, N>(ops: seq<Operation<K, V>>, outs: seq<Outcome<K, V>>, name: K -> N, n: N, i: nat)
    requires i < |ops| && i < |outs|
  {
    ops[i].Insertion? && name(ops[i].key) == n && outs[i].Inserted? && outs[i].status == Ok
  }

  /** Of the first j calls, call i is the last that stored a pair under the name, and none after it
      deleted the name. */
  ghost predicate Current<K, V, N>(ops: seq<Operation<K, V>>, outs: seq<Outcome<K, V>>, name: K -> N, n: N, i: nat, j: nat)
    requires j <= |ops| && j <= |outs|
  {
    && i < j && Stores(ops, outs, name, n, i)
    && forall t :: i < t < j ==> !Stores(ops, outs, name, n, t) && !(ops[t].Deletion? && name(ops[t].key) == n)
  }

  lemma CurrentNext<K, V, N>(ops: seq<Operation<K, V>>, outs: seq<Outcome<K, V>>, name: K -> N, n: N, j: nat, next: nat)
    requires j < |ops| && j < |outs| && next == j + 1
    ensures Stores(ops, outs, name, n, j) ==> forall i: nat :: Current(ops, outs, name, n, i, next) <==> i == j
    ensures ops[j].Deletion? && name(ops[j].key) == n ==> forall i: nat :: !Current(ops, outs, name, n, i, next)
    ensures !Stores(ops, outs, name, n, j) && !(ops[j].Deletion? && name(ops[j].key) == n) ==>
              forall i: nat :: Current(ops, outs, name, n, i, next) <==> Current(ops, outs, name, n, i, j)
  {
  }

  /** One call, as a step of the mathematical map. */
  lemma StoredNext<K, V, N>(ops: seq<Operation<K, V>>, outs: seq<Outcome<K, V>>, name: K -> N, n: N, j: nat)
    requires AllAgree(ops, outs, name) && j < |ops| && (ops[j].Insertion? ==> ops[j].strategy != Append)
    ensures var m, after := After(ops, outs, j, name), After(ops, outs, j + 1, name);
            if Stores(ops, outs, name, n, j) then Stored(after, n) == Some((ops[j].key, ops[j].value))
            else if ops[j].Deletion? && name(ops[j].key) == n then Stored(after, n) == None
            else Stored(after, n) == Stored(m, n)
  {
    hide HugeSize;
    assert Agrees(After(ops, outs, j, name), ops[j], outs[j], name);
  }

  /** The mathematical map holds what was stored last. */
  lemma {:induction false} StoredIsCurrent<K, V, N>(ops: seq<Operation<K, V>>, outs: seq<Outcome<K, V>>, name: K -> N, n: N, j: nat)
    requires AllAgree(ops, outs, name) && j <= |ops|
    requires forall i :: 0 <= i < |ops| && ops[i].Insertion? ==> ops[i].strategy != Append
    ensures forall i: nat :: Current(ops, outs, name, n, i, j) ==> i < |ops| && ops[i].Insertion? && Stored(After(ops, outs, j, name), n) == Some((ops[i].key, ops[i].value))
    ensures Stored(After(ops, outs, j, name), n).Some? ==> exists i: nat :: Current(ops, outs, name, n, i, j)
    decreases j
  {
    hide Current, Stores, Stored, After, AllAgree;
    assert |outs| == |ops| by { AgreeingLengths(ops, outs, name); }
    if j == 0 {
      NoneCurrent(ops, outs, name, n);
    } else {
      StoredIsCurrent(ops, outs, name, n, j - 1);
      StoredNext(ops, outs, name, n, j - 1);
      CurrentNext(ops, outs, name, n, j - 1, j);
      assert Stores(ops, outs, name, n, j - 1) ==> Current(ops, outs, name, n, j - 1, j) && ops[j - 1].Insertion? by { StoresInserts(ops, outs, name, n, j - 1); }
      if !Stores(ops, outs, name, n, j - 1) && Stored(After(ops, outs, j, name), n).Some? {
        var i: nat :| Current(ops, outs, name, n, i, j - 1);
        assert Current(ops, outs, name, n, i, j);
      }
    }
  }

  lemma AgreeingLengths<K, V, N>(ops: seq<Operation<K, V>>, outs: seq<Outcome<K, V>>, name: K -> N)
    requires AllAgree(ops, outs, name)
    ensures |outs| == |ops|
  {
  }

  lemma StoresInserts<K, V, N>(ops: seq<Operation<K, V>>, outs: seq<Outcome<K, V>>, name: K -> N, n: N, i: nat)
    requires i < |ops| && i < |outs|
    ensures Stores(ops, outs, name, n, i) ==> ops[i].Insertion?
  {
  }

  lemma NoneCurrent<K, V, N>(ops: seq<Operation<K, V>>, outs: seq<Outcome<K, V>>, name: K -> N, n: N)
    ensures forall i: nat :: !Current(ops, outs, name, n, i, 0)
    ensures Stored(After(ops, outs, 0, name), n) == None
  {
  }

  /** Without APPEND, for every call of every run. If call i is the last that stored a pair under the name
      of this one, and it has not been deleted since: a lookup finds its value, a deletion returns its
      pair, ADD fails, SET and UPDATE succeed, and all three return its pair as the old one. If there is
      no such call: a lookup and a deletion find nothing, UPDATE fails, ADD and SET succeed or have run
      out of memory, and no old pair is returned. */
  lemma CallsAreAnswered<K, V, N>(ops: seq<Operation<K, V>>, outs: seq<Outcome<K, V>>, name: K -> N, j: nat)
    requires AllAgree(ops, outs, name) && j < |ops|
    requires forall i :: 0 <= i < |ops| && ops[i].Insertion? ==> ops[i].strategy != Append
    ensures forall i: nat :: Current(ops, outs, name, name(ops[j].key), i, j) ==>
              match ops[j]
              case Query(_) => outs[j] == Answered(Some(ops[i].value))
              case Deletion(_) => outs[j] == Deleted(Some((ops[i].key, ops[i].value)))
              case Insertion(_, _, strategy, _, _) => outs[j] == Inserted(if strategy == Add then Exists else Ok, Some((ops[i].key, ops[i].value)))
    ensures (forall i: nat :: !Current(ops, outs, name, name(ops[j].key), i, j)) ==>
              match ops[j]
              case Query(_) => outs[j] == Answered(None)
              case Deletion(_) => outs[j] == Deleted(None)
              case Insertion(_, _, strategy, canGrow, canAllocate) =>
                || outs[j] == Inserted(if strategy == Update then NotFound else Ok, None)
                || (outs[j] == Inserted(NoMemory, None) && strategy != Update && (!canGrow || !canAllocate || (|After(ops, outs, j, name)| + 1) * 4 / 3 > Pow2(60)))
  {
    hide Current, After, Pow2;
    StoredIsCurrent(ops, outs, name, name(ops[j].key), j);
    assert Agrees(After(ops, outs, j, name), ops[j], outs[j], name);
  }

  // ----- Several pairs under one name -----

  /** What each operation does to the pairs of a name, the one a lookup finds first. */
  lemma PairsAfter<K, V, N>(b: Book<N, (K, V)>, op: Operation<K, V>, name: K -> N)
    ensures var (out, c) := Perform(b, op, name);
            var n := name(op.key);
            var before, now := Pairs(b, n), Pairs(c, n);
            match op
            case Query(_) => c == b
            case Deletion(_) => before != [] ==> now == before[1..] && out == Deleted(Some(before[0]))
            case Insertion(key, value, strategy, _, _) =>
              && out.Inserted?
              && (out.status == Ok ==>
                    if strategy != Append && before != [] then now == [(key, value)] + before[1..]
                    else now == [(key, value)] + if c.bits == b.bits then before else Reverse(before))
  {
    hide Pow2;
  }
}
