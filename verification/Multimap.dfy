/** What libbpf's hash map means (lib/libbpf/src/hashmap.c, hashmap.h): for each name, the stored pairs in
    the order in which a lookup would meet them. */
module Multimap {
  import opened Bits
  import opened Options

  const MIN_CAP_BITS: nat := 2
  const MAX_CAP_BITS: nat := 60  // the bytes of a larger bucket array do not fit 64 bits

  datatype Strategy = Add | Set | Update | Append

  datatype Status = Ok | Exists | NotFound | NoMemory

  datatype Operation<K, V> =
    | Insertion(key: K, value: V, strategy: Strategy, canGrow: bool, canAllocate: bool)
    | Deletion(key: K)
    | Query(key: K)

  datatype Outcome<K, V> =
    | Inserted(status: Status, previous: Option<(K, V)>)
    | Deleted(removed: Option<(K, V)>)
    | Answered(value: Option<V>)

  function Reverse<T>(s: seq<T>): (r: seq<T>)
    ensures |r| == |s|
  {
    if s == [] then [] else [s[|s| - 1]] + Reverse(s[..|s| - 1])
  }

  lemma {:induction false} ReverseAt<T>(s: seq<T>)
    ensures forall i :: 0 <= i < |s| ==> Reverse(s)[i] == s[|s| - 1 - i]
  {
    if s != [] {
      ReverseAt(s[..|s| - 1]);
    }
  }

  lemma ReverseTwice<T>(s: seq<T>)
    ensures Reverse(Reverse(s)) == s
  {
    hide Reverse;
    ReverseAt(s);
    ReverseAt(Reverse(s));
  }

  lemma ReversePush<T>(s: seq<T>, x: T)
    ensures Reverse(s + [x]) == [x] + Reverse(s)
  {
    assert (s + [x])[..|s|] == s;
  }

  // ----- One operation -----

  /** The pairs stored under each name, the number of entries, and the logarithm of the capacity
      (0 when there is no table). */
  datatype Book<N, P> = Book(lists: map<N, seq<P>>, size: nat, bits: nat)

  ghost function Pairs<N, P>(b: Book<N, P>, n: N): seq<P> {
    if n in b.lists then b.lists[n] else []
  }

  /** The pair a lookup finds. */
  ghost function Front<N, P>(b: Book<N, P>, n: N): Option<P> {
    if Pairs(b, n) == [] then None else Some(Pairs(b, n)[0])
  }

  /** Names without pairs are not kept. */
  ghost function With<N, P>(lists: map<N, seq<P>>, n: N, s: seq<P>): map<N, seq<P>> {
    if s == [] then lists - {n} else lists[n := s]
  }

  ghost predicate NeedsToGrow<N, P>(b: Book<N, P>) {
    b.bits == 0 || (b.size + 1) * 4 / 3 > Pow2(b.bits)
  }

  function NextBits(bits: nat): nat {
    if bits + 1 < MIN_CAP_BITS then MIN_CAP_BITS else bits + 1
  }

  /** Rehashing turns the pairs of every name around. */
  ghost function Grown<N, P>(b: Book<N, P>): Book<N, P> {
    Book(map n | n in b.lists :: Reverse(b.lists[n]), b.size, NextBits(b.bits))
  }

  /** The table after making room for one more entry; None if that takes memory there is not. */
  ghost function Roomy<N, P>(b: Book<N, P>, canGrow: bool): Option<Book<N, P>> {
    if !NeedsToGrow(b) then Some(b)
    else if canGrow && b.bits < MAX_CAP_BITS then Some(Grown(b))
    else None
  }

  ghost function Pushed<N, P>(b: Book<N, P>, n: N, pair: P): Book<N, P> {
    b.(lists := b.lists[n := [pair] + Pairs(b, n)], size := b.size + 1)
  }

  /** A new entry goes before the others of its name. If its allocation fails, a growth stays. */
  ghost function Entered<N, P>(b: Book<N, P>, n: N, pair: P, canGrow: bool, canAllocate: bool): (Status, Book<N, P>) {
    match Roomy(b, canGrow)
    case None => (NoMemory, b)
    case Some(r) => if canAllocate then (Ok, Pushed(r, n, pair)) else (NoMemory, r)
  }

  ghost function Insert<N, P>(b: Book<N, P>, n: N, pair: P, strategy: Strategy, canGrow: bool, canAllocate: bool): (Status, Book<N, P>) {
    if strategy != Append && Pairs(b, n) != [] then
      if strategy == Add then (Exists, b) else (Ok, b.(lists := b.lists[n := [pair] + Pairs(b, n)[1..]]))
    else if strategy == Update then (NotFound, b)
    else Entered(b, n, pair, canGrow, canAllocate)
  }

  ghost function Remove<N, P>(b: Book<N, P>, n: N): Book<N, P> {
    if Pairs(b, n) == [] then b
    else b.(lists := With(b.lists, n, Pairs(b, n)[1..]), size := if b.size > 0 then b.size - 1 else 0)
  }

  /** What an operation answers, and what it leaves behind. */
  ghost function Perform<K, V, N>(b: Book<N, (K, V)>, op: Operation<K, V>, name: K -> N): (Outcome<K, V>, Book<N, (K, V)>) {
    match op
    case Insertion(key, value, strategy, canGrow, canAllocate) =>
      var (status, after) := Insert(b, name(key), (key, value), strategy, canGrow, canAllocate);
      (Inserted(status, if strategy == Append then None else Front(b, name(key))), after)
    case Deletion(key) => (Deleted(Front(b, name(key))), Remove(b, name(key)))
    case Query(key) => (Answered(match Front(b, name(key)) case None => None case Some(p) => Some(p.1)), b)
  }

  ghost function Run<K, V, N>(ops: seq<Operation<K, V>>, name: K -> N): Book<N, (K, V)> {
    if ops == [] then Book(map[], 0, 0) else Perform(Run(ops[..|ops| - 1], name), ops[|ops| - 1], name).1
  }

  /** The outcomes of a run are those of the multimap. */
  ghost predicate Follows<K, V, N>(ops: seq<Operation<K, V>>, outs: seq<Outcome<K, V>>, name: K -> N) {
    |outs| <= |ops| && forall i :: 0 <= i < |outs| ==> outs[i] == Perform(Run(ops[..i], name), ops[i], name).0
  }

  lemma RunNext<K, V, N>(ops: seq<Operation<K, V>>, i: nat, name: K -> N)
    requires i < |ops|
    ensures Run(ops[..i + 1], name) == Perform(Run(ops[..i], name), ops[i], name).1
  {
    assert ops[..i + 1][..i] == ops[..i];
  }

  // ----- Which of several pairs a lookup finds -----

  /** The operation does not change what is stored under a name. */
  ghost predicate Spares<K, V, N>(op: Operation<K, V>, name: K -> N, n: N) {
    op.Query? || name(op.key) != n
  }

  /** How many of the operations i..j made the table grow. */
  ghost function Growths<K, V, N>(ops: seq<Operation<K, V>>, i: nat, j: nat, name: K -> N): nat
    requires i <= j <= |ops|
    decreases j
  {
    if i == j then 0
    else Growths(ops, i, j - 1, name) + if Run(ops[..j], name).bits != Run(ops[..j - 1], name).bits then 1 else 0
  }

  ghost function Turned<T>(s: seq<T>, times: nat): seq<T> {
    if times == 0 then s else Reverse(Turned(s, times - 1))
  }

  lemma {:induction false} TurnedParity<T>(s: seq<T>, times: nat)
    ensures times % 2 == 0 ==> Turned(s, times) == s
    ensures times % 2 == 1 ==> Turned(s, times) == Reverse(s)
  {
    hide Reverse;
    if times > 0 {
      TurnedParity(s, times - 1);
      ReverseTwice(s);
    }
  }

  /** An operation that spares a name turns its pairs around exactly when the table grows. */
  lemma SparedStep<K, V, N>(b: Book<N, (K, V)>, op: Operation<K, V>, name: K -> N, n: N)
    requires Spares(op, name, n)
    ensures var c := Perform(b, op, name).1;
            Pairs(c, n) == (if c.bits != b.bits then Reverse(Pairs(b, n)) else Pairs(b, n))
  {
    hide Pow2;
  }

  lemma {:induction false} SparedRun<K, V, N>(ops: seq<Operation<K, V>>, i: nat, j: nat, name: K -> N, n: N)
    requires i <= j <= |ops| && forall k :: i <= k < j ==> Spares(ops[k], name, n)
    ensures Pairs(Run(ops[..j], name), n) == Turned(Pairs(Run(ops[..i], name), n), Growths(ops, i, j, name))
    decreases j
  {
    hide Run, Perform, Pairs, Spares;
    if i < j {
      SparedRun(ops, i, j - 1, name, n);
      RunNext(ops, j - 1, name);
      SparedStep(Run(ops[..j - 1], name), ops[j - 1], name, n);
    }
  }

  lemma AppendedFirst<K, V, N>(b: Book<N, (K, V)>, op: Operation<K, V>, name: K -> N)
    requires op.Insertion? && op.strategy == Append && Perform(b, op, name).0 == Inserted(Ok, None)
    ensures var s := Pairs(Perform(b, op, name).1, name(op.key)); |s| == |Pairs(b, name(op.key))| + 1 && s[0] == (op.key, op.value)
  {
    hide Pow2;
  }

  /** A lookup after an APPEND, with no operation on that name in between, finds the pair appended
      if the table has grown an even number of times since, and the oldest pair of the name
      otherwise. So it finds the last pair appended if and only if the number of growths is even
      or that pair is the oldest one too. */
  lemma FoundAfterAppend<K, V, N>(ops: seq<Operation<K, V>>, i: nat, j: nat, name: K -> N)
    requires i < j <= |ops| && ops[i].Insertion? && ops[i].strategy == Append
    requires Perform(Run(ops[..i], name), ops[i], name).0 == Inserted(Ok, None)
    requires forall k :: i < k < j ==> Spares(ops[k], name, name(ops[i].key))
    ensures var n, last := name(ops[i].key), (ops[i].key, ops[i].value);
            var s := Pairs(Run(ops[..i + 1], name), n);
            && |s| > 0 && s[0] == last
            && Front(Run(ops[..j], name), n) == Some(if Growths(ops, i + 1, j, name) % 2 == 0 then last else s[|s| - 1])
            && (Front(Run(ops[..j], name), n) == Some(last) <==> Growths(ops, i + 1, j, name) % 2 == 0 || s[|s| - 1] == last)
  {
    hide Run, Perform, Growths, Turned, Reverse;
    RunNext(ops, i, name);
    ReverseAt(Pairs(Run(ops[..i + 1], name), name(ops[i].key)));
    AppendedFirst(Run(ops[..i], name), ops[i], name);
    SparedRun(ops, i + 1, j, name, name(ops[i].key));
    TurnedParity(Pairs(Run(ops[..i + 1], name), name(ops[i].key)), Growths(ops, i + 1, j, name));
  }

  /** Two pairs appended for one key, and two more keys. */
  ghost function Appends(): seq<Operation<int, int>> {
    [Insertion(0, 1, Append, true, true), Insertion(0, 2, Append, true, true),
     Insertion(1, 3, Set, true, true), Insertion(2, 4, Set, true, true)]
  }

  lemma TwoAppended(name: int -> int)
    requires forall k :: name(k) == k
    ensures Run(Appends()[..2], name) == Book(map[0 := [(0, 2), (0, 1)]], 2, 2)
  {
    var ops := Appends();
    assert Pow2(2) == 4 && ops[..0] == [];
    RunNext(ops, 0, name);
    var none: Book<int, (int, int)> := Book(map[], 0, 0);
    assert Run(ops[..0], name) == none && Grown(none) == Book(map[], 0, 2);
    assert [(0, 1)] + Pairs(Grown(none), 0) == [(0, 1)];
    assert Run(ops[..1], name) == Book(map[0 := [(0, 1)]], 1, 2);
    assert [(0, 2)] + [(0, 1)] == [(0, 2), (0, 1)];
    RunNext(ops, 1, name);
  }

  lemma ThreeStored(name: int -> int)
    requires forall k :: name(k) == k
    ensures Run(Appends()[..3], name) == Book(map[0 := [(0, 2), (0, 1)], 1 := [(1, 3)]], 3, 2)
  {
    hide Run;
    assert Pow2(2) == 4;
    TwoAppended(name);
    RunNext(Appends(), 2, name);
    var b := Run(Appends()[..2], name);
    assert 1 !in b.lists && !NeedsToGrow(b) && [(1, 3)] + Pairs(b, 1) == [(1, 3)];
    assert Pushed(b, 1, (1, 3)).lists == map[0 := [(0, 2), (0, 1)], 1 := [(1, 3)]];
  }

  /** It does happen: the fourth insertion makes the table grow from four buckets to eight, and then
      the lookup finds the first pair instead of the second. */
  lemma OldestIsFound(name: int -> int)
    requires forall k :: name(k) == k
    ensures Front(Run(Appends()[..3], name), 0) == Some((0, 2)) && Front(Run(Appends(), name), 0) == Some((0, 1))
  {
    hide Run;
    assert Pow2(2) == 4;
    ThreeStored(name);
    var b := Run(Appends()[..3], name);
    RunNext(Appends(), 3, name);
    assert Appends()[..4] == Appends();
    ReverseAt([(0, 2), (0, 1)]);
    assert Pairs(Grown(b), 0) == Reverse([(0, 2), (0, 1)]) && 2 !in b.lists;
  }

  // ----- Without APPEND: a mathematical map -----

  /** What insertion does to a mathematical map from names to stored pairs. */
  ghost function InsertSpec<N, P>(m: map<N, P>, n: N, pair: P, strategy: Strategy): (Status, map<N, P>) {
    if n in m && strategy == Add then (Exists, m)
    else if n !in m && strategy == Update then (NotFound, m)
    else (Ok, m[n := pair])
  }

  ghost function Stored<N, P>(m: map<N, P>, n: N): Option<P> {
    if n in m then Some(m[n]) else None
  }

  /** What an operation with a given outcome does to a mathematical map from names to stored pairs. */
  ghost function Effect<K, V, N>(m: map<N, (K, V)>, op: Operation<K, V>, out: Outcome<K, V>, name: K -> N): map<N, (K, V)> {
    match op
    case Insertion(key, value, strategy, _, _) =>
      if out.Inserted? && out.status == NoMemory then m else InsertSpec(m, name(key), (key, value), strategy).1
    case Deletion(key) => m - {name(key)}
    case Query(_) => m
  }

  /** The outcome is the one a mathematical map gives; running out of memory is possible where a pair
      would have been stored and an allocation failed, or the table cannot grow any further. */
  ghost predicate Agrees<K, V, N>(m: map<N, (K, V)>, op: Operation<K, V>, out: Outcome<K, V>, name: K -> N) {
    match (op, out)
    case (Insertion(key, value, strategy, canGrow, canAllocate), Inserted(status, previous)) =>
      && previous == Stored(m, name(key))
      && var expected := InsertSpec(m, name(key), (key, value), strategy).0;
         || status == expected
         || (status == NoMemory && expected == Ok && name(key) !in m && (!canGrow || !canAllocate || HugeSize(|m|)))
    case (Deletion(key), Deleted(removed)) => removed == Stored(m, name(key))
    case (Query(key), Answered(value)) => value == if name(key) in m then Some(m[name(key)].1) else None
    case _ => false
  }

  /** A table of the largest capacity is too small for one more entry. */
  ghost predicate HugeSize(size: nat) {
    (size + 1) * 4 / 3 > Pow2(MAX_CAP_BITS)
  }

  /** The map after the first n operations. */
  ghost function After<K, V, N>(ops: seq<Operation<K, V>>, outs: seq<Outcome<K, V>>, n: nat, name: K -> N): map<N, (K, V)>
    requires n <= |ops| && n <= |outs|
  {
    if n == 0 then map[] else Effect(After(ops, outs, n - 1, name), ops[n - 1], outs[n - 1], name)
  }

  /** Every outcome is the one the mathematical map gives. */
  ghost predicate AllAgree<K, V, N>(ops: seq<Operation<K, V>>, outs: seq<Outcome<K, V>>, name: K -> N) {
    |outs| == |ops| && forall i :: 0 <= i < |outs| ==> Agrees(After(ops, outs, i, name), ops[i], outs[i], name)
  }

  /** Every name has at most one pair, the one of a mathematical map. */
  ghost predicate Single<N, P>(b: Book<N, P>, m: map<N, P>) {
    b.lists.Keys == m.Keys && b.size == |m| && b.bits <= MAX_CAP_BITS && forall n :: n in m ==> b.lists[n] == [m[n]]
  }

  lemma SingleGrown<N, P>(b: Book<N, P>, m: map<N, P>)
    requires Single(b, m) && b.bits < MAX_CAP_BITS
    ensures Single(Grown(b), m)
  {
    forall n | n in m
      ensures Reverse(b.lists[n]) == [m[n]]
    {
      assert b.lists[n] == [m[n]];
      ReverseAt(b.lists[n]);
    }
  }

  lemma SingleStored<N, P>(b: Book<N, P>, m: map<N, P>, n: N, pair: P)
    requires Single(b, m)
    ensures n !in m ==> Single(Pushed(b, n, pair), m[n := pair])
    ensures n in m ==> Single(b.(lists := b.lists[n := [pair] + Pairs(b, n)[1..]]), m[n := pair])
  {
    if n !in m {
      assert m[n := pair].Keys == m.Keys + {n} && |m[n := pair].Keys| == |m.Keys| + 1;
    } else {
      assert m[n := pair].Keys == m.Keys;
      assert [m[n]][1..] == [];
    }
  }

  lemma SingleRemoved<N, P>(b: Book<N, P>, m: map<N, P>, n: N)
    requires Single(b, m)
    ensures Single(Remove(b, n), m - {n})
  {
    if n in m {
      assert [m[n]][1..] == [];
      assert (m - {n}).Keys == m.Keys - {n} && |(m - {n}).Keys| == |m.Keys| - 1;
    } else {
      assert m - {n} == m;
    }
  }

  lemma SingleInsert<N, P>(b: Book<N, P>, m: map<N, P>, n: N, pair: P, strategy: Strategy, canGrow: bool, canAllocate: bool)
    requires Single(b, m) && strategy != Append
    ensures var (status, after) := Insert(b, n, pair, strategy, canGrow, canAllocate);
            var (expected, m') := InsertSpec(m, n, pair, strategy);
            && (status == expected || (status == NoMemory && expected == Ok && n !in m && (!canGrow || !canAllocate || HugeSize(|m|))))
            && Single(after, if status == NoMemory then m else m')
  {
    hide Single, Pow2, Pushed, Grown;
    assert (n in m <==> Pairs(b, n) != []) && b.bits <= MAX_CAP_BITS && b.size == |m| by { SingleFacts(b, m, n); }
    SingleStored(b, m, n, pair);
    if NeedsToGrow(b) && b.bits < MAX_CAP_BITS {
      SingleGrown(b, m);
      SingleStored(Grown(b), m, n, pair);
    }
  }

  lemma SingleFacts<N, P>(b: Book<N, P>, m: map<N, P>, n: N)
    requires Single(b, m)
    ensures (n in m <==> Pairs(b, n) != []) && (n in m ==> Pairs(b, n) == [m[n]]) && b.bits <= MAX_CAP_BITS && b.size == |m|
  {
  }

  /** One operation other than APPEND. */
  lemma SingleStep<K, V, N>(b: Book<N, (K, V)>, m: map<N, (K, V)>, op: Operation<K, V>, name: K -> N)
    requires Single(b, m) && (op.Insertion? ==> op.strategy != Append)
    ensures var (out, after) := Perform(b, op, name); Agrees(m, op, out, name) && Single(after, Effect(m, op, out, name))
  {
    hide Single, Insert, InsertSpec, Remove, HugeSize;
    SingleFacts(b, m, name(op.key));
    match op {
      case Insertion(key, value, strategy, canGrow, canAllocate) =>
        SingleInsert(b, m, name(key), (key, value), strategy, canGrow, canAllocate);
      case Deletion(key) =>
        SingleRemoved(b, m, name(key));
      case Query(_) =>
    }
  }

  lemma {:induction false} SingleRun<K, V, N>(ops: seq<Operation<K, V>>, outs: seq<Outcome<K, V>>, n: nat, name: K -> N)
    requires Follows(ops, outs, name) && n <= |outs|
    requires forall i :: 0 <= i < |ops| && ops[i].Insertion? ==> ops[i].strategy != Append
    ensures Single(Run(ops[..n], name), After(ops, outs, n, name))
    ensures forall i :: 0 <= i < n ==> Agrees(After(ops, outs, i, name), ops[i], outs[i], name)
    decreases n
  {
    hide Single, Perform, Agrees, Effect, Run;
    if n == 0 {
      RunNone(ops, name);
      SingleNone<N, (K, V)>();
    } else {
      SingleRun(ops, outs, n - 1, name);
      RunNext(ops, n - 1, name);
      SingleStep(Run(ops[..n - 1], name), After(ops, outs, n - 1, name), ops[n - 1], name);
    }
  }

  lemma RunNone<K, V, N>(ops: seq<Operation<K, V>>, name: K -> N)
    ensures Run(ops[..0], name) == Book(map[], 0, 0)
  {
  }

  lemma SingleNone<N, P>()
    ensures Single<N, P>(Book(map[], 0, 0), map[])
  {
  }

  /** Without APPEND, whatever follows the multimap follows a mathematical map. */
  lemma PlainRun<K, V, N>(ops: seq<Operation<K, V>>, outs: seq<Outcome<K, V>>, name: K -> N)
    requires Follows(ops, outs, name) && |outs| == |ops|
    requires forall i :: 0 <= i < |ops| && ops[i].Insertion? ==> ops[i].strategy != Append
    ensures AllAgree(ops, outs, name) && Run(ops, name).size == |After(ops, outs, |ops|, name)|
  {
    hide Perform, Agrees, Effect, After, Run;
    SingleRun(ops, outs, |ops|, name);
    assert ops[..|ops|] == ops;
  }
}
