/** libbpf's chained hash map (lib/libbpf/src/hashmap.c, hashmap.h). */
module HashMap {
  import opened Bits
  import opened Options
  import opened Multimap

  const LONG: nat := 0x1_0000_0000_0000_0000
  const GOLDEN: nat := 11400714819323198485

  /** hash_bits: the upper `bits` bits of a shuffled 64-bit hash. (For bits = 0 the shift by 64 is
      undefined in C; the code never uses that value.) */
  function HashBits(h: nat, bits: nat): (b: nat)
    requires bits <= 64
    ensures b < Pow2(bits)
    ensures b * Pow2(64 - bits) <= h * 11400714819323198485 % LONG < (b + 1) * Pow2(64 - bits)
  {
    LongIsPow2();
    ShiftFloor(h * GOLDEN % LONG, 64 - bits);
    ShiftBound(h * GOLDEN % LONG, 64 - bits, bits);
    ShiftRight(h * GOLDEN % LONG, 64 - bits)
  }

  class Entry<K, V> {
    var key: K
    var value: V
    var next: Entry?<K, V>

    constructor (key: K, value: V)
      ensures this.key == key && this.value == value
    {
      this.key, this.value, next := key, value, null;
    }
  }

  // ----- Chains and tables -----

  /** The j-th entry of a chain, or null past its end. */
  ghost function At<K, V>(chain: seq<Entry<K, V>>, j: nat): Entry?<K, V> {
    if j < |chain| then chain[j] else null
  }

  ghost function Members<K, V>(chain: seq<Entry<K, V>>): set<Entry<K, V>> {
    set e | e in chain
  }

  /** From its j-th entry on, the chain is linked through the next pointers and ends in null. */
  ghost predicate LinkedFrom<K, V>(chain: seq<Entry<K, V>>, from: nat)
    reads Members(chain)`next
  {
    forall j :: from <= j < |chain| ==> chain[j].next == At(chain, j + 1)
  }

  ghost predicate Distinct<K, V>(chain: seq<Entry<K, V>>) {
    forall i, j :: 0 <= i < j < |chain| ==> chain[i] != chain[j]
  }

  /** The chains hold exactly the entries `ents`, each once, in the bucket of its hash. (Chains of
      different buckets are disjoint because a key has one bucket.) */
  ghost predicate Placed<K, V>(chains: seq<seq<Entry<K, V>>>, ents: set<Entry<K, V>>, bits: nat, hash: K -> nat)
    reads ents`key
  {
    && bits <= 64 && |chains| == Pow2(bits)
    && (forall b, j :: 0 <= b < |chains| && 0 <= j < |chains[b]| ==>
          chains[b][j] in ents && HashBits(hash(chains[b][j].key), bits) == b)
    && (forall e :: e in ents ==> e in chains[HashBits(hash(e.key), bits)])
    && (forall b :: 0 <= b < |chains| ==> Distinct(chains[b]))
  }

  /** The buckets point at the heads of the chains. */
  ghost predicate Heads<K, V>(buckets: array<Entry?<K, V>>, chains: seq<seq<Entry<K, V>>>)
    reads buckets
  {
    buckets.Length == |chains| && forall b :: 0 <= b < |chains| ==> buckets[b] == At(chains[b], 0)
  }

  /** The chains from bucket b on are linked. */
  ghost predicate Linked<K, V>(chains: seq<seq<Entry<K, V>>>, ents: set<Entry<K, V>>, b: nat)
    reads ents`next
  {
    forall c :: b <= c < |chains| ==> Members(chains[c]) <= ents && LinkedFrom(chains[c], 0)
  }

  ghost predicate Table<K, V>(buckets: array<Entry?<K, V>>, chains: seq<seq<Entry<K, V>>>, ents: set<Entry<K, V>>,
                              bits: nat, hash: K -> nat)
    reads buckets, ents
  {
    Placed(chains, ents, bits, hash) && Heads(buckets, chains) && Linked(chains, ents, 0)
  }

  /** The entries of the first b chains. */
  ghost function FirstChains<K, V>(chains: seq<seq<Entry<K, V>>>, b: nat): set<Entry<K, V>>
    requires b <= |chains|
  {
    if b == 0 then {} else FirstChains(chains, b - 1) + Members(chains[b - 1])
  }

  lemma {:induction false} FirstChainsFacts<K, V>(chains: seq<seq<Entry<K, V>>>, ents: set<Entry<K, V>>, bits: nat, hash: K -> nat, b: nat)
    requires Placed(chains, ents, bits, hash) && b <= |chains|
    ensures FirstChains(chains, b) <= ents
    ensures forall e :: e in ents ==> (e in FirstChains(chains, b) <==> HashBits(hash(e.key), bits) < b)
  {
    hide HashBits, Pow2;
    if b > 0 {
      FirstChainsFacts(chains, ents, bits, hash, b - 1);
    }
  }

  /** A chain shares no entry with the chains before it, nor with any other. */
  lemma ChainApart<K, V>(chains: seq<seq<Entry<K, V>>>, ents: set<Entry<K, V>>, bits: nat, hash: K -> nat, b: nat)
    requires Placed(chains, ents, bits, hash) && b < |chains|
    ensures Distinct(chains[b]) && Members(chains[b]) <= ents
    ensures FirstChains(chains, b + 1) == FirstChains(chains, b) + Members(chains[b])
    ensures Members(chains[b]) !! FirstChains(chains, b)
    ensures forall c :: 0 <= c < |chains| && c != b ==> Members(chains[c]) !! Members(chains[b])
  {
    hide HashBits, Pow2;
    FirstChainsFacts(chains, ents, bits, hash, b);
  }

  lemma AllMembers<K, V>(chains: seq<seq<Entry<K, V>>>, ents: set<Entry<K, V>>, bits: nat, hash: K -> nat)
    requires Placed(chains, ents, bits, hash)
    ensures forall b :: 0 <= b < |chains| ==> Members(chains[b]) <= ents
  {
    hide HashBits, Pow2;
  }

  lemma AllChains<K, V>(chains: seq<seq<Entry<K, V>>>, ents: set<Entry<K, V>>, bits: nat, hash: K -> nat)
    requires Placed(chains, ents, bits, hash)
    ensures FirstChains(chains, |chains|) == ents && FirstChains(chains, 0) == {}
  {
    hide HashBits, Pow2;
    FirstChainsFacts(chains, ents, bits, hash, |chains|);
    assert forall e :: e in ents ==> HashBits(hash(e.key), bits) < |chains|;
  }

  ghost function NoChains<K, V>(bits: nat): (r: seq<seq<Entry<K, V>>>)
    ensures |r| == Pow2(bits) && forall b :: 0 <= b < |r| ==> r[b] == []
  {
    seq(Pow2(bits), _ => [])
  }

  lemma EmptyTable<K, V>(buckets: array<Entry?<K, V>>, bits: nat, hash: K -> nat)
    requires bits <= 64 && buckets.Length == Pow2(bits) && forall b :: 0 <= b < buckets.Length ==> buckets[b] == null
    ensures Table(buckets, NoChains(bits), {}, bits, hash)
  {
    hide HashBits, Pow2, NoChains;
  }

  ghost function PushOn<K, V>(chains: seq<seq<Entry<K, V>>>, h: nat, e: Entry<K, V>): (r: seq<seq<Entry<K, V>>>)
    requires h < |chains|
    ensures |r| == |chains| && r[h] == [e] + chains[h] && forall b :: 0 <= b < |chains| && b != h ==> r[b] == chains[b]
  {
    chains[h := [e] + chains[h]]
  }

  lemma PushPlaced<K, V>(chains: seq<seq<Entry<K, V>>>, h: nat, e: Entry<K, V>, ents: set<Entry<K, V>>, bits: nat, hash: K -> nat)
    requires Placed(chains, ents, bits, hash) && e !in ents && h == HashBits(hash(e.key), bits)
    ensures Placed(PushOn(chains, h, e), ents + {e}, bits, hash)
  {
    hide HashBits, Pow2;
  }

  /** hashmap_add_entry: push an entry on the chain of its bucket. */
  method AddEntry<K, V>(buckets: array<Entry?<K, V>>, h: nat, e: Entry<K, V>, ghost chains: seq<seq<Entry<K, V>>>,
                        ghost ents: set<Entry<K, V>>, ghost bits: nat, ghost hash: K -> nat)
      returns (ghost chains': seq<seq<Entry<K, V>>>)
    requires Table(buckets, chains, ents, bits, hash)
    requires e !in ents && h == HashBits(hash(e.key), bits)
    modifies buckets, e`next
    ensures Table(buckets, chains', ents + {e}, bits, hash) && h < |chains| && chains' == PushOn(chains, h, e)
  {
    hide HashBits, Pow2, Placed, PushOn;
    TableSize(buckets, chains, ents, bits, hash);
    PushPlaced(chains, h, e, ents, bits, hash);
    chains' := PushOn(chains, h, e);
    e.next := buckets[h];
    buckets[h] := e;
    forall c | 0 <= c < |chains|
      ensures Members(chains'[c]) <= ents + {e} && LinkedFrom(chains'[c], 0)
    {
      assert Members(chains[c]) <= ents && LinkedFrom(chains[c], 0);
      if c == h {
        assert chains'[h][0] == e && forall j :: 0 < j < |chains'[h]| ==> chains'[h][j] == chains[h][j - 1];
      }
    }
  }

  ghost function CutFrom<K, V>(chains: seq<seq<Entry<K, V>>>, h: nat, i: nat): (r: seq<seq<Entry<K, V>>>)
    requires h < |chains| && i < |chains[h]|
    ensures |r| == |chains| && forall b :: 0 <= b < |chains| && b != h ==> r[b] == chains[b]
    ensures |r[h]| == |chains[h]| - 1
    ensures forall j :: 0 <= j < |r[h]| ==> r[h][j] == chains[h][if j < i then j else j + 1]
  {
    chains[h := chains[h][..i] + chains[h][i + 1..]]
  }

  lemma CutPlaced<K, V>(chains: seq<seq<Entry<K, V>>>, h: nat, i: nat, ents: set<Entry<K, V>>, bits: nat, hash: K -> nat)
    requires Placed(chains, ents, bits, hash) && h < |chains| && i < |chains[h]|
    ensures Placed(CutFrom(chains, h, i), ents - {chains[h][i]}, bits, hash)
  {
    hide HashBits, Pow2, CutFrom;
    var r, x := CutFrom(chains, h, i), chains[h][i];
    forall e | e in ents - {x}
      ensures e in r[HashBits(hash(e.key), bits)]
    {
      var b := HashBits(hash(e.key), bits);
      var j :| 0 <= j < |chains[b]| && chains[b][j] == e;
      if b == h {
        assert r[h][if j < i then j else j - 1] == e;
      }
    }
  }

  /** hashmap_del_entry: unlink the i-th entry of a chain. */
  method DelEntry<K, V>(buckets: array<Entry?<K, V>>, h: nat, e: Entry<K, V>, prev: Entry?<K, V>, ghost i: nat,
                        ghost chains: seq<seq<Entry<K, V>>>, ghost ents: set<Entry<K, V>>, ghost bits: nat, ghost hash: K -> nat)
      returns (ghost chains': seq<seq<Entry<K, V>>>)
    requires Table(buckets, chains, ents, bits, hash)
    requires h < |chains| && i < |chains[h]| && e == chains[h][i] && prev == if i == 0 then null else chains[h][i - 1]
    modifies buckets, ents`next
    ensures Table(buckets, chains', ents - {e}, bits, hash) && chains' == CutFrom(chains, h, i)
  {
    hide HashBits, Pow2, CutFrom, Placed, FirstChains;
    CutPlaced(chains, h, i, ents, bits, hash);
    ChainApart(chains, ents, bits, hash, h);
    chains' := CutFrom(chains, h, i);
    ghost var chain, rest := chains[h], chains'[h];
    assert e.next == At(chain, i + 1) && e in Members(chain) && (i > 0 ==> prev in Members(chain));
    if prev == null {
      buckets[h] := e.next;
    } else {
      prev.next := e.next;
    }
    e.next := null;
    AllMembers(chains', ents - {e}, bits, hash);
    forall b | 0 <= b < |chains| && b != h
      ensures LinkedFrom(chains'[b], 0)
    {
      assert Members(chains[b]) !! Members(chain);
    }
    assert LinkedFrom(rest, 0) by {
      assert forall j :: 0 <= j < |rest| ==> rest[j] == chain[if j < i then j else j + 1];
    }
    hide LinkedFrom, Members;
  }

  lemma NoMembers<K, V>(chain: seq<Entry<K, V>>)
    ensures Members(chain[..0]) == {}
  {
  }

  lemma NextMember<K, V>(chain: seq<Entry<K, V>>, i: nat)
    requires Distinct(chain) && i < |chain|
    ensures chain[i] in Members(chain) && chain[i] !in Members(chain[..i])
    ensures Members(chain[..i + 1]) == Members(chain[..i]) + {chain[i]}
    ensures forall j :: i < j < |chain| ==> chain[j] != chain[i]
  {
    assert chain[..i + 1] == chain[..i] + [chain[i]];
  }

  // ----- Entries of one name -----

  /** Equal names hash equally. */
  ghost predicate Respects<K(!new), N>(hash: K -> nat, name: K -> N) {
    forall a, b :: name(a) == name(b) ==> hash(a) == hash(b)
  }

  /** The name of each entry; it never changes, although its key may be replaced by an equal one. */
  ghost predicate Knows<K, V, N>(ents: set<Entry<K, V>>, names: map<Entry<K, V>, N>, name: K -> N)
    reads ents`key
  {
    forall e :: e in ents ==> e in names && names[e] == name(e.key)
  }

  lemma KnowsFewer<K, V, N>(ents: set<Entry<K, V>>, fewer: set<Entry<K, V>>, names: map<Entry<K, V>, N>, name: K -> N)
    requires Knows(ents, names, name) && fewer <= ents
    ensures Knows(fewer, names, name)
  {
  }

  /** The entries of a chain with a name, in order. */
  ghost function Same<K, V, N>(chain: seq<Entry<K, V>>, names: map<Entry<K, V>, N>, n: N): seq<Entry<K, V>> {
    if chain == [] then []
    else (if chain[0] in names && names[chain[0]] == n then [chain[0]] else []) + Same(chain[1..], names, n)
  }

  lemma {:induction false} SameJoin<K, V, N>(a: seq<Entry<K, V>>, b: seq<Entry<K, V>>, names: map<Entry<K, V>, N>, n: N)
    ensures Same(a + b, names, n) == Same(a, names, n) + Same(b, names, n)
  {
    if a == [] {
      assert a + b == b;
    } else {
      assert (a + b)[1..] == a[1..] + b;
      SameJoin(a[1..], b, names, n);
    }
  }

  lemma SameOne<K, V, N>(e: Entry<K, V>, names: map<Entry<K, V>, N>, n: N)
    ensures Same([e], names, n) == if e in names && names[e] == n then [e] else []
  {
    assert [e][1..] == [];
  }

  lemma {:induction false} SameNone<K, V, N>(chain: seq<Entry<K, V>>, names: map<Entry<K, V>, N>, n: N)
    requires forall j :: 0 <= j < |chain| && chain[j] in names ==> names[chain[j]] != n
    ensures Same(chain, names, n) == []
  {
    if chain != [] {
      SameNone(chain[1..], names, n);
    }
  }

  lemma {:induction false} SameFrom<K, V, N>(chain: seq<Entry<K, V>>, names: map<Entry<K, V>, N>, n: N)
    ensures forall j :: 0 <= j < |Same(chain, names, n)| ==>
              var e := Same(chain, names, n)[j]; e in chain && e in names && names[e] == n
  {
    if chain != [] {
      SameFrom(chain[1..], names, n);
    }
  }

  /** A new name does not concern a chain that the entry is not in. */
  lemma {:induction false} SameNewName<K, V, N>(chain: seq<Entry<K, V>>, names: map<Entry<K, V>, N>, n: N, e: Entry<K, V>, m: N)
    requires e !in chain
    ensures Same(chain, names[e := m], n) == Same(chain, names, n)
  {
    if chain != [] {
      SameNewName(chain[1..], names, n, e, m);
    }
  }

  /** The first entry of a name, and what is left without it. */
  lemma SameFirst<K, V, N>(chain: seq<Entry<K, V>>, i: nat, names: map<Entry<K, V>, N>, n: N)
    requires i < |chain| && chain[i] in names && names[chain[i]] == n
    requires forall j :: 0 <= j < i && chain[j] in names ==> names[chain[j]] != n
    ensures Same(chain, names, n) == [chain[i]] + Same(chain[..i] + chain[i + 1..], names, n)
    ensures forall m :: m != n ==> Same(chain, names, m) == Same(chain[..i] + chain[i + 1..], names, m)
  {
    hide Same;
    assert chain == chain[..i] + [chain[i]] + chain[i + 1..];
    forall m
      ensures Same(chain, names, m) == Same(chain[..i], names, m) + Same([chain[i]], names, m) + Same(chain[i + 1..], names, m)
      ensures Same(chain[..i] + chain[i + 1..], names, m) == Same(chain[..i], names, m) + Same(chain[i + 1..], names, m)
      ensures Same([chain[i]], names, m) == if m == n then [chain[i]] else []
    {
      SameJoin(chain[..i] + [chain[i]], chain[i + 1..], names, m);
      SameJoin(chain[..i], [chain[i]], names, m);
      SameJoin(chain[..i], chain[i + 1..], names, m);
      SameOne(chain[i], names, m);
    }
    SameNone(chain[..i], names, n);
  }

  /** Moving a chain puts its entries of each name, turned around, before those already there. */
  ghost predicate Moved<K(!new), V, N>(chains0: seq<seq<Entry<K, V>>>, chains: seq<seq<Entry<K, V>>>, chain: seq<Entry<K, V>>,
                                       bits: nat, hash: K -> nat, name: K -> N, names: map<Entry<K, V>, N>)
    requires bits <= 64 && |chains| == |chains0| == Pow2(bits)
  {
    forall k: K :: var h := HashBits(hash(k), bits);
      Same(chains[h], names, name(k)) == Reverse(Same(chain, names, name(k))) + Same(chains0[h], names, name(k))
  }

  lemma NothingMoved<K(!new), V, N>(chains: seq<seq<Entry<K, V>>>, chain: seq<Entry<K, V>>,
                                    bits: nat, hash: K -> nat, name: K -> N, names: map<Entry<K, V>, N>)
    requires bits <= 64 && |chains| == Pow2(bits)
    ensures Moved(chains, chains, chain[..0], bits, hash, name, names)
  {
    hide HashBits, Pow2;
  }

  lemma MovedNext<K(!new), V, N>(chains0: seq<seq<Entry<K, V>>>, chains: seq<seq<Entry<K, V>>>, chain: seq<Entry<K, V>>, i: nat,
                                 bits: nat, hash: K -> nat, name: K -> N, names: map<Entry<K, V>, N>, key: K)
    requires bits <= 64 && |chains| == |chains0| == Pow2(bits) && i < |chain|
    requires Moved(chains0, chains, chain[..i], bits, hash, name, names)
    requires Respects(hash, name) && chain[i] in names && names[chain[i]] == name(key)
    ensures Moved(chains0, PushOn(chains, HashBits(hash(key), bits), chain[i]), chain[..i + 1], bits, hash, name, names)
  {
    hide HashBits, Pow2, Same, Reverse, PushOn;
    var g, e := HashBits(hash(key), bits), chain[i];
    var more := PushOn(chains, g, e);
    assert chain[..i + 1] == chain[..i] + [e];
    forall k: K
      ensures var h := HashBits(hash(k), bits);
              Same(more[h], names, name(k)) == Reverse(Same(chain[..i + 1], names, name(k))) + Same(chains0[h], names, name(k))
    {
      var h, n := HashBits(hash(k), bits), name(k);
      SameJoin(chain[..i], [e], names, n);
      SameOne(e, names, n);
      SameJoin([e], chains[h], names, n);
      if name(key) == n {
        ReversePush(Same(chain[..i], names, n), e);
      } else {
        assert Same(chain[..i], names, n) + [] == Same(chain[..i], names, n);
        assert [] + Same(chains[h], names, n) == Same(chains[h], names, n);
      }
    }
  }

  /** The chains before bucket b have been moved, the entries of each name turned around. */
  ghost predicate TurnedUpTo<K(!new), V, N>(chains: seq<seq<Entry<K, V>>>, newChains: seq<seq<Entry<K, V>>>, b: nat, oldBits: nat,
                                            bits: nat, hash: K -> nat, name: K -> N, names: map<Entry<K, V>, N>)
    requires bits <= 64 && oldBits <= 64 && |newChains| == Pow2(bits) && |chains| == Pow2(oldBits)
  {
    forall k: K :: var h := HashBits(hash(k), oldBits);
      Same(newChains[HashBits(hash(k), bits)], names, name(k)) == if h < b then Reverse(Same(chains[h], names, name(k))) else []
  }

  lemma NothingTurned<K(!new), V, N>(chains: seq<seq<Entry<K, V>>>, oldBits: nat, bits: nat, hash: K -> nat, name: K -> N, names: map<Entry<K, V>, N>)
    requires bits <= 64 && oldBits <= 64 && |chains| == Pow2(oldBits)
    ensures TurnedUpTo(chains, NoChains(bits), 0, oldBits, bits, hash, name, names)
  {
    hide HashBits, Pow2, NoChains;
  }

  lemma Elsewhere<K(!new), V, N>(chains: seq<seq<Entry<K, V>>>, ents: set<Entry<K, V>>, bits: nat, hash: K -> nat,
                                 name: K -> N, names: map<Entry<K, V>, N>, b: nat, k: K)
    requires Placed(chains, ents, bits, hash) && Respects(hash, name) && Knows(ents, names, name)
    requires b < |chains| && HashBits(hash(k), bits) != b
    ensures Same(chains[b], names, name(k)) == []
  {
    hide HashBits, Pow2;
    SameNone(chains[b], names, name(k));
  }

  lemma TurnedNext<K(!new), V, N>(chains: seq<seq<Entry<K, V>>>, before: seq<seq<Entry<K, V>>>, after: seq<seq<Entry<K, V>>>, b: nat,
                                  ents: set<Entry<K, V>>, oldBits: nat, bits: nat, hash: K -> nat, name: K -> N, names: map<Entry<K, V>, N>)
    requires bits <= 64 && oldBits <= 64 && |before| == |after| == Pow2(bits) && |chains| == Pow2(oldBits) && b < |chains|
    requires Placed(chains, ents, oldBits, hash) && Respects(hash, name) && Knows(ents, names, name)
    requires TurnedUpTo(chains, before, b, oldBits, bits, hash, name, names) && Moved(before, after, chains[b], bits, hash, name, names)
    ensures TurnedUpTo(chains, after, b + 1, oldBits, bits, hash, name, names)
  {
    hide HashBits, Pow2, Placed, Respects, Knows, Same;
    forall k: K
      ensures var h := HashBits(hash(k), oldBits);
              Same(after[HashBits(hash(k), bits)], names, name(k)) == if h < b + 1 then Reverse(Same(chains[h], names, name(k))) else []
    {
      var h := HashBits(hash(k), oldBits);
      if h != b {
        Elsewhere(chains, ents, oldBits, hash, name, names, b, k);
        assert Reverse<Entry<K, V>>([]) == [];
      }
    }
  }

  lemma TableSize<K, V>(buckets: array<Entry?<K, V>>, chains: seq<seq<Entry<K, V>>>, ents: set<Entry<K, V>>, bits: nat, hash: K -> nat)
    requires Table(buckets, chains, ents, bits, hash)
    ensures bits <= 64 && |chains| == Pow2(bits)
  {
  }

  /** The safe iteration over one old chain: each entry is pushed on its chain in the new table, so
      that entries of one name come out in reverse order before those moved earlier. */
  method MoveChain<K(!new), V, N(!new)>(head: Entry?<K, V>, buckets: array<Entry?<K, V>>, bits: nat, hash: K -> nat,
                         ghost chain: seq<Entry<K, V>>, ghost chains0: seq<seq<Entry<K, V>>>, ghost moved0: set<Entry<K, V>>,
                         ghost name: K -> N, ghost names: map<Entry<K, V>, N>)
      returns (ghost chains: seq<seq<Entry<K, V>>>, ghost moved: set<Entry<K, V>>)
    requires bits <= 64 && Distinct(chain) && LinkedFrom(chain, 0) && head == At(chain, 0)
    requires Table(buckets, chains0, moved0, bits, hash) && Members(chain) !! moved0
    requires Respects(hash, name) && Knows(Members(chain), names, name)
    modifies buckets, Members(chain)`next
    ensures moved == moved0 + Members(chain)
    ensures Table(buckets, chains, moved, bits, hash)
    ensures |chains| == |chains0| == Pow2(bits) && Moved(chains0, chains, chain, bits, hash, name, names)
  {
    hide HashBits, Table, Distinct, Members, Moved, Respects, Pow2, PushOn;
    chains, moved := chains0, moved0;
    var cur := head;
    ghost var i := 0;
    assert Members(chain[..0]) == {} by { NoMembers(chain); }
    TableSize(buckets, chains, moved, bits, hash);
    NothingMoved(chains0, chain, bits, hash, name, names);
    while cur != null
      invariant i <= |chain| && cur == At(chain, i) && LinkedFrom(chain, i)
      invariant moved == moved0 + Members(chain[..i])
      invariant Table(buckets, chains, moved, bits, hash)
      invariant |chains| == |chains0| == Pow2(bits) && Moved(chains0, chains, chain[..i], bits, hash, name, names)
      decreases |chain| - i
    {
      var tmp := cur.next;
      var h := HashBits(hash(cur.key), bits);
      NextMember(chain, i);
      MovedNext(chains0, chains, chain, i, bits, hash, name, names, cur.key);
      chains := AddEntry(buckets, h, cur, chains, moved, bits, hash);
      moved := moved + {cur};
      i := i + 1;
      cur := tmp;
    }
    assert chain[..i] == chain;
  }

  /** The iteration of hashmap_grow over all old chains. It turns the entries of every name around. */
  method Rehash<K(!new), V, N(!new)>(buckets: array<Entry?<K, V>>, target: array<Entry?<K, V>>, bits: nat, hash: K -> nat,
                      ghost chains: seq<seq<Entry<K, V>>>, ghost ents: set<Entry<K, V>>, ghost oldBits: nat,
                      ghost name: K -> N, ghost names: map<Entry<K, V>, N>)
      returns (ghost newChains: seq<seq<Entry<K, V>>>)
    requires Table(buckets, chains, ents, oldBits, hash) && target != buckets
    requires bits <= 64 && target.Length == Pow2(bits) && forall b :: 0 <= b < target.Length ==> target[b] == null
    requires Respects(hash, name) && Knows(ents, names, name)
    modifies target, ents`next
    ensures Table(target, newChains, ents, bits, hash)
    ensures |newChains| == Pow2(bits) && |chains| == Pow2(oldBits) && oldBits <= 64
    ensures TurnedUpTo(chains, newChains, |chains|, oldBits, bits, hash, name, names)
  {
    hide HashBits, Pow2, Placed, FirstChains, Members, Distinct, Moved, TurnedUpTo, Respects, Knows;
    EmptyTable(target, bits, hash);
    newChains := NoChains(bits);
    ghost var moved: set<Entry<K, V>> := {};
    AllChains(chains, ents, oldBits, hash);
    TableSize(buckets, chains, ents, oldBits, hash);
    NothingTurned(chains, oldBits, bits, hash, name, names);
    for b := 0 to buckets.Length
      invariant Table(target, newChains, moved, bits, hash)
      invariant Placed(chains, ents, oldBits, hash) && Heads(buckets, chains) && Linked(chains, ents, b)
      invariant moved == FirstChains(chains, b)
      invariant |newChains| == Pow2(bits) && TurnedUpTo(chains, newChains, b, oldBits, bits, hash, name, names)
    {
      ChainApart(chains, ents, oldBits, hash, b);
      KnowsFewer(ents, Members(chains[b]), names, name);
      ghost var before := newChains;
      newChains, moved := MoveChain(buckets[b], target, bits, hash, chains[b], newChains, moved, name, names);
      TurnedNext(chains, before, newChains, b, ents, oldBits, bits, hash, name, names);
    }
  }

  lemma Pow2Next(k: nat)
    ensures Pow2(k + 1) == 2 * Pow2(k) && Pow2(MIN_CAP_BITS) == 4
  {
  }

  lemma {:induction false} Pow2AtLeast(k: nat, n: nat)
    ensures n <= k ==> Pow2(n) <= Pow2(k)
    ensures Pow2(MIN_CAP_BITS) == 4
  {
    if n < k {
      Pow2AtLeast(k - 1, n);
    }
  }

  // ----- The map -----

  /** What the map needs of its hash and equality functions: equality compares the names of keys
      (for the string keys of libbpf, the characters behind the pointer), and equal keys hash equally. */
  ghost predicate Lawful<K(!new), N>(hash: K -> nat, equal: (K, K) -> bool, name: K -> N) {
    (forall a, b :: equal(a, b) <==> name(a) == name(b)) && Respects(hash, name)
  }

  lemma Respectful<K(!new), N>(hash: K -> nat, equal: (K, K) -> bool, name: K -> N)
    requires Lawful(hash, equal, name)
    ensures Respects(hash, name)
  {
  }

  lemma Law<K(!new), N>(hash: K -> nat, equal: (K, K) -> bool, name: K -> N, a: K, b: K)
    requires Lawful(hash, equal, name)
    ensures equal(a, b) <==> name(a) == name(b)
    ensures name(a) == name(b) ==> hash(a) == hash(b)
  {
  }

  ghost function ListOf<N, E>(lists: map<N, seq<E>>, n: N): seq<E> {
    if n in lists then lists[n] else []
  }

  /** For every key, the entries of its name in its chain are the list of the name. */
  ghost predicate Named<K(!new), V, N>(chains: seq<seq<Entry<K, V>>>, bits: nat, hash: K -> nat, name: K -> N,
                                       names: map<Entry<K, V>, N>, lists: map<N, seq<Entry<K, V>>>)
  {
    && bits <= 64 && |chains| == Pow2(bits)
    && forall k: K :: Same(chains[HashBits(hash(k), bits)], names, name(k)) == ListOf(lists, name(k))
  }

  /** No list is empty, and none is of a name that no key has. */
  ghost predicate Inhabited<K(!new), N(!new), E>(lists: map<N, seq<E>>, name: K -> N) {
    forall n :: n in lists ==> lists[n] != [] && exists k: K :: name(k) == n
  }

  ghost function TurnAll<N, E>(lists: map<N, seq<E>>): map<N, seq<E>> {
    map n | n in lists :: Reverse(lists[n])
  }

  lemma NothingNamed<K(!new), V, N(!new)>(bits: nat, hash: K -> nat, name: K -> N, names: map<Entry<K, V>, N>)
    requires bits <= 64
    ensures Named(NoChains(bits), bits, hash, name, names, map[]) && TurnAll<N, Entry<K, V>>(map[]) == map[]
  {
    hide HashBits, Pow2, NoChains;
  }

  lemma NamedTurned<K(!new), V, N(!new)>(chains: seq<seq<Entry<K, V>>>, newChains: seq<seq<Entry<K, V>>>, oldBits: nat, bits: nat, hash: K -> nat,
                                         name: K -> N, names: map<Entry<K, V>, N>, lists: map<N, seq<Entry<K, V>>>)
    requires bits <= 64 && oldBits <= 64 && |newChains| == Pow2(bits) && |chains| == Pow2(oldBits)
    requires TurnedUpTo(chains, newChains, |chains|, oldBits, bits, hash, name, names)
    requires Named(chains, oldBits, hash, name, names, lists) && Inhabited(lists, name)
    ensures Named(newChains, bits, hash, name, names, TurnAll(lists)) && Inhabited(TurnAll(lists), name)
  {
    hide HashBits, Pow2, Same;
    assert Reverse<Entry<K, V>>([]) == [];
    forall k: K
      ensures Same(newChains[HashBits(hash(k), bits)], names, name(k)) == ListOf(TurnAll(lists), name(k))
    {
      assert HashBits(hash(k), oldBits) < |chains|;
    }
  }

  lemma NamedPushed<K(!new), V, N(!new)>(chains: seq<seq<Entry<K, V>>>, bits: nat, hash: K -> nat, name: K -> N,
                                         names: map<Entry<K, V>, N>, lists: map<N, seq<Entry<K, V>>>, e: Entry<K, V>, key: K)
    requires Named(chains, bits, hash, name, names, lists) && Respects(hash, name) && Inhabited(lists, name)
    requires forall b :: 0 <= b < |chains| ==> e !in chains[b]
    ensures Named(PushOn(chains, HashBits(hash(key), bits), e), bits, hash, name, names[e := name(key)],
                  lists[name(key) := [e] + ListOf(lists, name(key))])
    ensures Inhabited(lists[name(key) := [e] + ListOf(lists, name(key))], name)
  {
    hide HashBits, Pow2, Same, PushOn;
    var g, n := HashBits(hash(key), bits), name(key);
    var more, names', lists' := PushOn(chains, g, e), names[e := n], lists[n := [e] + ListOf(lists, n)];
    forall k: K
      ensures Same(more[HashBits(hash(k), bits)], names', name(k)) == ListOf(lists', name(k))
    {
      var h := HashBits(hash(k), bits);
      SameNewName(chains[h], names, name(k), e, n);
      SameJoin([e], chains[h], names', name(k));
      SameOne(e, names', name(k));
      if name(k) != n {
        assert [] + Same(chains[h], names', name(k)) == Same(chains[h], names', name(k));
      }
    }
  }

  lemma NamedCut<K(!new), V, N(!new)>(chains: seq<seq<Entry<K, V>>>, bits: nat, hash: K -> nat, name: K -> N,
                                      names: map<Entry<K, V>, N>, lists: map<N, seq<Entry<K, V>>>, i: nat, key: K)
    requires Named(chains, bits, hash, name, names, lists) && Respects(hash, name) && Inhabited(lists, name)
    requires var c := chains[HashBits(hash(key), bits)];
             && i < |c| && c[i] in names && names[c[i]] == name(key)
             && forall j :: 0 <= j < i && c[j] in names ==> names[c[j]] != name(key)
    ensures ListOf(lists, name(key)) != []
    ensures Named(CutFrom(chains, HashBits(hash(key), bits), i), bits, hash, name, names,
                  With(lists, name(key), ListOf(lists, name(key))[1..]))
    ensures Inhabited(With(lists, name(key), ListOf(lists, name(key))[1..]), name)
  {
    hide HashBits, Pow2, Same, CutFrom;
    var g, n := HashBits(hash(key), bits), name(key);
    var fewer := CutFrom(chains, g, i);
    SameFirst(chains[g], i, names, n);
    assert fewer[g] == chains[g][..i] + chains[g][i + 1..];
    assert Same(chains[g], names, n) == ListOf(lists, n);
    forall k: K
      ensures Same(fewer[HashBits(hash(k), bits)], names, name(k)) == ListOf(With(lists, n, ListOf(lists, n)[1..]), name(k))
    {
      if name(k) != n && HashBits(hash(k), bits) == g {
        assert Same(chains[g], names, name(k)) == ListOf(lists, name(k));
      }
    }
  }

  lemma {:induction false} SameDistinct<K, V, N>(chain: seq<Entry<K, V>>, names: map<Entry<K, V>, N>, n: N)
    requires Distinct(chain)
    ensures Distinct(Same(chain, names, n))
  {
    if chain != [] {
      assert forall i :: 0 <= i < |chain| - 1 ==> chain[1..][i] == chain[i + 1];
      SameDistinct(chain[1..], names, n);
      SameFrom(chain[1..], names, n);
    }
  }

  lemma KnowsMore<K, V, N>(ents: set<Entry<K, V>>, names: map<Entry<K, V>, N>, name: K -> N, e: Entry<K, V>)
    requires Knows(ents, names, name) && e !in ents
    ensures Knows(ents + {e}, names[e := name(e.key)], name)
  {
  }

  // ----- What lists of entries mean -----

  /** The keys and values of entries at one time. */
  ghost function Snap<K, V>(ents: set<Entry<K, V>>): map<Entry<K, V>, (K, V)>
    reads ents`key, ents`value
  {
    map e | e in ents :: (e.key, e.value)
  }

  ghost function Contents<K, V>(es: seq<Entry<K, V>>, snap: map<Entry<K, V>, (K, V)>): (s: seq<(K, V)>)
    requires forall e :: e in es ==> e in snap
    ensures |s| == |es| && forall i :: 0 <= i < |es| ==> s[i] == snap[es[i]]
  {
    seq(|es|, i requires 0 <= i < |es| => snap[es[i]])
  }

  /** The lists hold known entries, each once and under one name. */
  ghost predicate Apart<K, V, N>(lists: map<N, seq<Entry<K, V>>>, snap: map<Entry<K, V>, (K, V)>, names: map<Entry<K, V>, N>) {
    forall n :: n in lists ==>
      lists[n] != [] && Distinct(lists[n]) && forall e :: e in lists[n] ==> e in snap && e in names && names[e] == n
  }

  ghost function BookOf<K, V, N>(lists: map<N, seq<Entry<K, V>>>, snap: map<Entry<K, V>, (K, V)>, names: map<Entry<K, V>, N>,
                                 size: nat, bits: nat): Book<N, (K, V)>
    requires Apart(lists, snap, names)
  {
    Book(map n | n in lists :: Contents(lists[n], snap), size, bits)
  }

  lemma BookPairs<K, V, N>(lists: map<N, seq<Entry<K, V>>>, snap: map<Entry<K, V>, (K, V)>, names: map<Entry<K, V>, N>, size: nat, bits: nat, n: N)
    requires Apart(lists, snap, names)
    ensures var p, es := Pairs(BookOf(lists, snap, names, size, bits), n), ListOf(lists, n);
            |p| == |es| && forall i :: 0 <= i < |es| ==> es[i] in snap && p[i] == snap[es[i]]
  {
  }

  lemma ReversedEntries<K, V>(es: seq<Entry<K, V>>, snap: map<Entry<K, V>, (K, V)>)
    requires Distinct(es) && forall e :: e in es ==> e in snap
    ensures Distinct(Reverse(es)) && forall e :: e in Reverse(es) ==> e in es
    ensures Contents(Reverse(es), snap) == Reverse(Contents(es, snap))
  {
    hide Reverse, Contents;
    ReverseAt(es);
    ReverseAt(Contents(es, snap));
    assert forall e :: e in Reverse(es) ==> e in es;
  }

  lemma BookTurned<K, V, N>(lists: map<N, seq<Entry<K, V>>>, snap: map<Entry<K, V>, (K, V)>, names: map<Entry<K, V>, N>, size: nat, bits: nat)
    requires Apart(lists, snap, names)
    ensures Apart(TurnAll(lists), snap, names)
    ensures BookOf(TurnAll(lists), snap, names, size, NextBits(bits)) == Grown(BookOf(lists, snap, names, size, bits))
  {
    hide Reverse, Contents, Distinct, NextBits;
    TurnedApart(lists, snap, names);
    forall n | n in lists
      ensures Contents(TurnAll(lists)[n], snap) == Reverse(Contents(lists[n], snap))
    {
      ApartList(lists, snap, names, n);
      ReversedEntries(lists[n], snap);
    }
  }

  lemma ApartList<K, V, N>(lists: map<N, seq<Entry<K, V>>>, snap: map<Entry<K, V>, (K, V)>, names: map<Entry<K, V>, N>, n: N)
    requires Apart(lists, snap, names) && n in lists
    ensures lists[n] != [] && Distinct(lists[n]) && forall e :: e in lists[n] ==> e in snap && e in names && names[e] == n
  {
  }

  lemma TurnedApart<K, V, N>(lists: map<N, seq<Entry<K, V>>>, snap: map<Entry<K, V>, (K, V)>, names: map<Entry<K, V>, N>)
    requires Apart(lists, snap, names)
    ensures Apart(TurnAll(lists), snap, names)
  {
    hide Reverse, Distinct;
    forall n | n in lists
      ensures Distinct(Reverse(lists[n])) && (forall e :: e in Reverse(lists[n]) ==> e in lists[n])
    {
      ReversedEntries(lists[n], snap);
    }
  }

  lemma BookPushed<K, V, N>(lists: map<N, seq<Entry<K, V>>>, snap: map<Entry<K, V>, (K, V)>, names: map<Entry<K, V>, N>, size: nat, bits: nat,
                            e: Entry<K, V>, n: N, pair: (K, V))
    requires Apart(lists, snap, names) && e !in snap
    ensures var lists', snap', names' := lists[n := [e] + ListOf(lists, n)], snap[e := pair], names[e := n];
            && Apart(lists', snap', names')
            && BookOf(lists', snap', names', size + 1, bits) == Pushed(BookOf(lists, snap, names, size, bits), n, pair)
  {
    var lists', snap', names' := lists[n := [e] + ListOf(lists, n)], snap[e := pair], names[e := n];
    var b, c := BookOf(lists, snap, names, size, bits), [e] + ListOf(lists, n);
    assert Apart(lists', snap', names');
    assert Contents(c, snap') == [pair] + Pairs(b, n);
    assert forall m :: m in lists && m != n ==> Contents(lists'[m], snap') == Contents(lists[m], snap);
  }

  lemma BookReplaced<K, V, N>(lists: map<N, seq<Entry<K, V>>>, snap: map<Entry<K, V>, (K, V)>, names: map<Entry<K, V>, N>, size: nat, bits: nat,
                              n: N, pair: (K, V))
    requires Apart(lists, snap, names) && n in lists
    ensures lists[n] != [] && Apart(lists, snap[lists[n][0] := pair], names)
    ensures var b := BookOf(lists, snap, names, size, bits);
            BookOf(lists, snap[lists[n][0] := pair], names, size, bits) == b.(lists := b.lists[n := [pair] + Pairs(b, n)[1..]])
  {
    var b, snap' := BookOf(lists, snap, names, size, bits), snap[lists[n][0] := pair];
    assert Apart(lists, snap', names);
    assert Contents(lists[n], snap') == [pair] + Pairs(b, n)[1..];
    assert forall m :: m in lists && m != n ==> Contents(lists[m], snap') == Contents(lists[m], snap);
  }

  lemma CutApart<K, V, N>(lists: map<N, seq<Entry<K, V>>>, snap: map<Entry<K, V>, (K, V)>, names: map<Entry<K, V>, N>, n: N)
    requires Apart(lists, snap, names) && n in lists
    ensures lists[n] != [] && Apart(With(lists, n, lists[n][1..]), snap - {lists[n][0]}, names)
  {
    var rest := lists[n][1..];
    assert forall i :: 0 <= i < |rest| ==> rest[i] == lists[n][i + 1];
    forall m | m in lists && m != n
      ensures lists[n][0] !in lists[m]
    {
      assert lists[n][0] in lists[n];
    }
  }

  lemma ContentsSame<K, V>(es: seq<Entry<K, V>>, snap: map<Entry<K, V>, (K, V)>, other: map<Entry<K, V>, (K, V)>)
    requires forall e :: e in es ==> e in snap && e in other && snap[e] == other[e]
    ensures Contents(es, snap) == Contents(es, other)
  {
  }

  lemma BookIs<K, V, N>(lists: map<N, seq<Entry<K, V>>>, snap: map<Entry<K, V>, (K, V)>, names: map<Entry<K, V>, N>, b: Book<N, (K, V)>)
    requires Apart(lists, snap, names) && b.lists.Keys == lists.Keys
    requires forall m :: m in lists ==> (forall e :: e in lists[m] ==> e in snap) && b.lists[m] == Contents(lists[m], snap)
    ensures BookOf(lists, snap, names, b.size, b.bits) == b
  {
    hide Contents, Distinct;
  }

  lemma BookCut<K, V, N>(lists: map<N, seq<Entry<K, V>>>, snap: map<Entry<K, V>, (K, V)>, names: map<Entry<K, V>, N>, size: nat, bits: nat, n: N)
    requires Apart(lists, snap, names) && n in lists && size > 0
    ensures lists[n] != []
    ensures var lists', snap' := With(lists, n, lists[n][1..]), snap - {lists[n][0]};
            && Apart(lists', snap', names)
            && BookOf(lists', snap', names, size - 1, bits) == Remove(BookOf(lists, snap, names, size, bits), n)
  {
    hide Contents, Distinct, Apart;
    CutApart(lists, snap, names, n);
    ApartList(lists, snap, names, n);
    ContentsRest(lists[n], snap);
    var b, lists', snap' := BookOf(lists, snap, names, size, bits), With(lists, n, lists[n][1..]), snap - {lists[n][0]};
    forall m | m in lists'
      ensures (forall e :: e in lists'[m] ==> e in snap') && Contents(lists'[m], snap') == Remove(b, n).lists[m]
    {
      ApartList(lists', snap', names, m);
      ApartList(lists, snap, names, m);
      ContentsSame(lists'[m], snap', snap);
    }
    BookIs(lists', snap', names, Remove(b, n));
  }

  lemma ContentsRest<K, V>(es: seq<Entry<K, V>>, snap: map<Entry<K, V>, (K, V)>)
    requires es != [] && forall e :: e in es ==> e in snap
    ensures Contents(es[1..], snap) == Contents(es, snap)[1..] && |Contents(es, snap)| == |es|
  {
  }

  class Map<K(!new), V, N(!new)> {
    const hash: K -> nat
    const equal: (K, K) -> bool
    ghost const name: K -> N

    var buckets: array?<Entry?<K, V>>
    var cap: nat
    var capBits: nat
    var sz: nat
    ghost var chains: seq<seq<Entry<K, V>>>
    ghost var ents: set<Entry<K, V>>
    ghost var names: map<Entry<K, V>, N>       // the name of each entry
    ghost var lists: map<N, seq<Entry<K, V>>>  // the entries of each name, as a lookup meets them

    ghost predicate Valid()
      reads this, buckets, ents
    {
      && Sound() && Knows(ents, names, name) && Inhabited(lists, name)
      && if buckets == null then lists == map[] else Named(chains, capBits, hash, name, names, lists)
    }

    ghost predicate Sound()
      reads this`buckets, this`cap, this`capBits, this`sz, this`chains, this`ents, buckets, ents
    {
      && Lawful(hash, equal, name) && sz == |ents| && capBits <= MAX_CAP_BITS
      && if buckets == null then cap == capBits == 0 && chains == [] && ents == {}
         else MIN_CAP_BITS <= capBits && cap == Pow2(capBits) && Table(buckets, chains, ents, capBits, hash) && 4 * sz / 3 <= cap
    }

    /** Every entry listed is in the table, once and under its name. */
    lemma Listed()
      requires Valid()
      ensures Apart(lists, Snap(ents), names)
    {
      hide HashBits, Pow2, Lawful, Same, Linked;
      forall n | n in lists
        ensures Distinct(lists[n]) && forall e :: e in lists[n] ==> e in ents && e in names && names[e] == n
      {
        var k: K :| name(k) == n;
        var chain := chains[HashBits(hash(k), capBits)];
        assert Same(chain, names, name(k)) == lists[n];
        SameFrom(chain, names, n);
        SameDistinct(chain, names, n);
      }
    }

    /** What the map means. */
    ghost function Meaning(): Book<N, (K, V)>
      requires Valid()
      reads this, buckets, ents
    {
      Listed();
      BookOf(lists, Snap(ents), names, sz, capBits)
    }

    constructor (hash: K -> nat, equal: (K, K) -> bool, ghost name: K -> N)
      requires Lawful(hash, equal, name)
      ensures Valid() && Meaning() == Book(map[], 0, 0) && buckets == null && ents == {}
      ensures this.name == name
    {
      this.hash, this.equal, this.name := hash, equal, name;
      buckets, cap, capBits, sz, chains, ents, names, lists := null, 0, 0, 0, [], {}, map[], map[];
    }

    function Bucket(key: K): nat
      requires capBits <= MAX_CAP_BITS
      reads this`capBits
    {
      HashBits(hash(key), capBits)
    }

    /** The entry with its predecessor is the first of its name in its chain. */
    ghost predicate FirstAt(entry: Entry<K, V>, prev: Entry?<K, V>, key: K, i: nat)
      reads this
    {
      && buckets != null && capBits <= MAX_CAP_BITS && Bucket(key) < |chains| && i < |chains[Bucket(key)]|
      && var chain := chains[Bucket(key)];
         && entry == chain[i] && prev == (if i == 0 then null else chain[i - 1])
         && entry in names && names[entry] == name(key)
         && forall j :: 0 <= j < i && chain[j] in names ==> names[chain[j]] != name(key)
    }

    /** hashmap_find_entry: the first entry of the chain with an equal key, and its predecessor. */
    method FindEntry(key: K) returns (entry: Entry?<K, V>, prev: Entry?<K, V>, ghost i: nat)
      requires Valid()
      ensures entry == null <==> ListOf(lists, name(key)) == []
      ensures entry != null ==> entry in ents && entry == ListOf(lists, name(key))[0] && FirstAt(entry, prev, key, i)
    {
      hide HashBits, Lawful, Pow2, Same, Inhabited;
      entry, prev, i := null, null, 0;
      if buckets == null {
        return;
      }
      var h := Bucket(key);
      ghost var chain := chains[h];
      var cur := buckets[h];
      while cur != null
        invariant i <= |chain| && cur == At(chain, i) && prev == if i == 0 then null else chain[i - 1]
        invariant forall j :: 0 <= j < i ==> names[chain[j]] != name(key)
        decreases |chain| - i
      {
        Law(hash, equal, name, cur.key, key);
        if equal(cur.key, key) {
          entry := cur;
          SameFirst(chain, i, names, name(key));
          return;
        }
        prev, cur, i := cur, cur.next, i + 1;
      }
      SameNone(chain, names, name(key));
    }

    /** Move every entry into new buckets. */
    method MoveTo(target: array<Entry?<K, V>>, newBits: nat) returns (ghost newChains: seq<seq<Entry<K, V>>>)
      requires Valid() && target != buckets && newBits <= MAX_CAP_BITS
      requires target.Length == Pow2(newBits) && forall b :: 0 <= b < target.Length ==> target[b] == null
      modifies target, ents`next
      ensures Table(target, newChains, ents, newBits, hash)
      ensures Named(newChains, newBits, hash, name, names, TurnAll(lists)) && Inhabited(TurnAll(lists), name)
    {
      hide HashBits, Table, Pow2, Named, Inhabited, Knows, TurnedUpTo, Lawful, NoChains;
      Respectful(hash, equal, name);
      if buckets == null {
        EmptyTable(target, newBits, hash);
        NothingNamed(newBits, hash, name, names);
        newChains := NoChains(newBits);
      } else {
        newChains := Rehash(buckets, target, newBits, hash, chains, ents, capBits, name, names);
        NamedTurned(chains, newChains, capBits, newBits, hash, name, names, lists);
      }
    }

    /** Put new buckets in place of the old ones. */
    method Install(target: array<Entry?<K, V>>, newBits: nat)
      requires Valid() && target != buckets && MIN_CAP_BITS <= newBits <= MAX_CAP_BITS && 4 * sz / 3 <= Pow2(newBits)
      requires target.Length == Pow2(newBits) && forall b :: 0 <= b < target.Length ==> target[b] == null
      modifies this`buckets, this`cap, this`capBits, this`chains, this`lists, target, ents`next
      ensures Valid() && buckets == target && capBits == newBits && cap == Pow2(newBits) && lists == TurnAll(old(lists))
    {
      hide HashBits, Table, Pow2, Named, Inhabited, Knows, Lawful, TurnAll;
      ghost var newChains := MoveTo(target, newBits);
      chains, lists := newChains, TurnAll(lists);
      cap, capBits, buckets := Pow2(newBits), newBits, target;
    }

    lemma SizeFits()
      requires Valid()
      ensures capBits <= MAX_CAP_BITS && (buckets == null ==> sz == 0 && cap == capBits == 0)
      ensures buckets != null ==> MIN_CAP_BITS <= capBits && cap == Pow2(capBits) && 4 * sz / 3 <= cap
    {
      hide Table, Lawful, Knows, Named, Inhabited;
    }

    /** hashmap_grow: rehash every entry into a bucket array of twice the size. */
    method GrowTable(canAllocate: bool) returns (ok: bool)
      requires Valid()
      modifies this`buckets, this`cap, this`capBits, this`chains, this`lists, ents`next
      ensures Valid() && ok == (canAllocate && old(capBits) < MAX_CAP_BITS)
      ensures !ok ==> unchanged(this)
      ensures ok ==> buckets != null && fresh(buckets) && capBits == NextBits(old(capBits)) && lists == TurnAll(old(lists))
      ensures ok ==> cap == if old(buckets) == null then 4 else 2 * old(cap)
    {
      hide Valid, Pow2, TurnAll;
      SizeFits();
      Pow2Next(capBits);
      var newBits := capBits + 1;
      if newBits < MIN_CAP_BITS {
        newBits := MIN_CAP_BITS;
      }
      if !canAllocate || newBits > MAX_CAP_BITS {
        return false;
      }
      var target := new Entry?<K, V>[Pow2(newBits)](_ => null);
      Install(target, newBits);
      ok := true;
    }

    /** As GrowTable: rehashing turns the pairs of every name around. */
    method Grow(canAllocate: bool) returns (ok: bool)
      requires Valid()
      modifies this`buckets, this`cap, this`capBits, this`chains, this`lists, ents`next
      ensures Valid() && ok == (canAllocate && old(capBits) < MAX_CAP_BITS)
      ensures !ok ==> unchanged(this)
      ensures ok ==> buckets != null && fresh(buckets) && cap == if old(buckets) == null then 4 else 2 * old(cap)
      ensures Meaning() == if ok then Grown(old(Meaning())) else old(Meaning())
    {
      hide Sound, Named, Knows, Inhabited, BookOf, Apart, Grown;
      Listed();
      BookTurned(lists, Snap(ents), names, sz, capBits);
      ghost var snap := Snap(ents);
      ok := GrowTable(canAllocate);
      assert Snap(ents) == snap;
    }

    /** hashmap_needs_to_grow. */
    predicate NeedsRoom()
      reads this`cap, this`sz
    {
      cap == 0 || (sz + 1) * 4 / 3 > cap
    }

    /** Make room for one more entry. */
    method MakeRoom(canGrow: bool) returns (ok: bool)
      requires Valid()
      modifies this`buckets, this`cap, this`capBits, this`chains, this`lists, ents`next
      ensures Valid() && (ok ==> buckets != null && (sz + 1) * 4 / 3 <= cap)
      ensures cap == if !ok then old(cap) else if old(cap) == 0 then 4 else if (sz + 1) * 4 / 3 > old(cap) then 2 * old(cap) else old(cap)
      ensures buckets == old(buckets) || fresh(buckets)
      ensures match Roomy(old(Meaning()), canGrow) case None => !ok && unchanged(this) && Meaning() == old(Meaning()) case Some(b) => ok && Meaning() == b
    {
      hide Knows, Inhabited, Named, Grown, Apart, Pow2, Table, Lawful;
      Pow2Next(capBits);
      Pow2AtLeast(capBits, MIN_CAP_BITS);
      ok := true;
      if NeedsRoom() {
        ok := Grow(canGrow);
      }
    }

    /** Link a new entry into a table that has room for it. */
    method LinkEntry(e: Entry<K, V>)
      requires Sound() && buckets != null && (sz + 1) * 4 / 3 <= cap && e !in ents
      modifies this`chains, this`ents, this`sz, buckets, e`next
      ensures Sound() && ents == old(ents) + {e} && sz == old(sz) + 1
      ensures Bucket(e.key) < |old(chains)| && chains == PushOn(old(chains), Bucket(e.key), e)
    {
      hide HashBits, Lawful, Table, Pow2, PushOn;
      var h := Bucket(e.key);
      chains := AddEntry(buckets, h, e, chains, ents, capBits, hash);
      ents := ents + {e};
      sz := sz + 1;
    }

    lemma NotLinked(e: Entry<K, V>)
      requires Sound() && e !in ents
      ensures forall b :: 0 <= b < |chains| ==> e !in chains[b]
    {
      hide HashBits, Lawful, Pow2;
    }

    /** The structure does not depend on names and lists. */
    twostate lemma StillSound()
      requires old(Sound()) && unchanged(`buckets, `cap, `capBits, `sz, `chains, `ents)
      requires buckets != null ==> unchanged(buckets)
      requires forall e :: e in ents ==> hash(e.key) == old(hash(e.key)) && e.next == old(e.next)
      ensures Sound()
    {
      hide HashBits, Pow2, Lawful;
    }

    /** As LinkEntry: the new entry goes before the others of its name. */
    method LinkNamed(e: Entry<K, V>)
      requires Valid() && buckets != null && (sz + 1) * 4 / 3 <= cap && e !in ents
      modifies this`chains, this`ents, this`sz, this`names, this`lists, buckets, e`next
      ensures Valid() && ents == old(ents) + {e} && sz == old(sz) + 1
      ensures names == old(names)[e := name(e.key)] && lists == old(lists)[name(e.key) := [e] + ListOf(old(lists), name(e.key))]
    {
      hide Sound, Inhabited, Named, Knows, PushOn, HashBits, ListOf;
      SoundFacts();
      NotLinked(e);
      NamedPushed(chains, capBits, hash, name, names, lists, e, e.key);
      KnowsMore(ents, names, name, e);
      LinkEntry(e);
      names, lists := names[e := name(e.key)], lists[name(e.key) := [e] + ListOf(lists, name(e.key))];
    }

    method Link(e: Entry<K, V>)
      requires Valid() && buckets != null && (sz + 1) * 4 / 3 <= cap && e !in ents
      modifies this`chains, this`ents, this`sz, this`names, this`lists, buckets, e`next
      ensures Valid() && ents == old(ents) + {e} && sz == old(sz) + 1
      ensures Meaning() == Pushed(old(Meaning()), name(e.key), (e.key, e.value))
    {
      hide Valid, Apart, BookOf, Pushed, ListOf;
      Listed();
      ghost var snap := Snap(ents);
      BookPushed(lists, snap, names, sz, capBits, e, name(e.key), (e.key, e.value));
      LinkNamed(e);
      assert Snap(ents) == snap[e := (e.key, e.value)];
    }

    lemma SoundFacts()
      requires Sound()
      ensures Respects(hash, name) && capBits <= MAX_CAP_BITS && sz == |ents|
    {
    }

    /** The end of hashmap__insert: add a new entry, growing the table first if need be. */
    method Push(key: K, value: V, canGrow: bool, canAllocate: bool) returns (status: Status)
      requires Valid()
      modifies this, buckets, ents`next
      ensures Valid() && (buckets == old(buckets) || fresh(buckets)) && fresh(ents - old(ents))
      ensures (status, Meaning()) == Entered(old(Meaning()), name(key), (key, value), canGrow, canAllocate)
    {
      hide Sound, Inhabited, Apart, Named, Knows, BookOf, Pushed, Roomy, Meaning, Lawful;
      var ok := MakeRoom(canGrow);
      if !ok || !canAllocate {
        return NoMemory;
      }
      var e := new Entry(key, value);
      Link(e);
      status := Ok;
    }

    /** SET and UPDATE on an existing key replace the key and value of the entry found. */
    method Replace(entry: Entry<K, V>, key: K, value: V)
      requires Valid() && name(key) in lists && entry in ents && entry == ListOf(lists, name(key))[0]
      modifies entry`key, entry`value
      ensures Valid()
      ensures Meaning() == old(Meaning().(lists := Meaning().lists[name(key) := [(key, value)] + Pairs(Meaning(), name(key))[1..]]))
    {
      hide Sound, Inhabited, Apart, Named, BookOf;
      SoundFacts();
      Listed();
      ghost var snap := Snap(ents);
      Lists(name(key));
      BookReplaced(lists, snap, names, sz, capBits, name(key), (key, value));
      entry.key := key;
      entry.value := value;
      StillSound();
      assert Snap(ents) == snap[entry := (key, value)];
    }

    lemma Lists(n: N)
      requires Valid() && n in lists
      ensures lists[n] != [] && lists[n][0] in ents && lists[n][0] in names && names[lists[n][0]] == n == name(lists[n][0].key)
      ensures sz > 0
    {
      hide Sound, Named;
      SoundFacts();
      Listed();
      var e := lists[n][0];
      assert e in lists[n] && e in ents;
    }

    /** The lookup at the start of hashmap__insert and hashmap__find. */
    method Lookup(key: K) returns (entry: Entry?<K, V>)
      requires Valid()
      ensures entry == null <==> name(key) !in lists
      ensures entry != null ==> entry in ents && entry == ListOf(lists, name(key))[0]
      ensures Front(Meaning(), name(key)) == if entry == null then None else Some((entry.key, entry.value))
      ensures Pairs(Meaning(), name(key)) == [] <==> entry == null
    {
      hide Sound, Inhabited, Apart, Named, Knows, BookOf;
      Listed();
      if name(key) in lists {
        Lists(name(key));
      }
      BookPairs(lists, Snap(ents), names, sz, capBits, name(key));
      var found, prev, i := FindEntry(key);
      entry := found;
    }

    /** hashmap__insert. */
    method Insert(key: K, value: V, strategy: Strategy, canGrow: bool, canAllocate: bool)
        returns (status: Status, previous: Option<(K, V)>)
      requires Valid()
      modifies this, buckets, ents
      ensures Valid() && (buckets == old(buckets) || fresh(buckets)) && fresh(ents - old(ents))
      ensures (status, Meaning()) == Multimap.Insert(old(Meaning()), name(key), (key, value), strategy, canGrow, canAllocate)
      ensures previous == if strategy == Append then None else old(Front(Meaning(), name(key)))
    {
      hide Valid, Meaning, Front, Entered;
      previous := None;
      if strategy != Append {
        var entry := Lookup(key);
        if entry != null {
          previous := Some((entry.key, entry.value));
          status := Ok;
          if strategy == Add {
            status := Exists;
          } else {
            Replace(entry, key, value);
          }
          return;
        }
      }
      if strategy == Update {
        return NotFound, previous;
      }
      status := Push(key, value, canGrow, canAllocate);
    }

    /** hashmap__find. */
    method Find(key: K) returns (value: Option<V>)
      requires Valid()
      ensures value == match Front(Meaning(), name(key)) case None => None case Some(p) => Some(p.1)
    {
      hide Valid, Meaning, Front;
      var entry := Lookup(key);
      value := if entry == null then None else Some(entry.value);
    }

    /** hashmap__size. */
    method Size() returns (n: nat)
      requires Valid()
      ensures n == |ents| == Meaning().size
    {
      hide Inhabited, Apart, Named, Knows, Table, Lawful;
      n := sz;
    }

    /** Take an entry out of the table. */
    method UnlinkEntry(entry: Entry<K, V>, prev: Entry?<K, V>, key: K, ghost i: nat)
      requires Sound() && entry in ents && FirstAt(entry, prev, key, i)
      modifies this`chains, this`ents, this`sz, buckets, ents`next
      ensures Sound() && ents == old(ents) - {entry} && sz == old(sz) - 1
      ensures chains == CutFrom(old(chains), Bucket(key), i)
    {
      hide HashBits, Lawful, Table, Pow2;
      var h := Bucket(key);
      chains := DelEntry(buckets, h, entry, prev, i, chains, ents, capBits, hash);
      ents := ents - {entry};
      sz := sz - 1;
    }

    /** As UnlinkEntry: the first entry of the name goes. */
    method UnlinkNamed(entry: Entry<K, V>, prev: Entry?<K, V>, key: K, ghost i: nat)
      requires Valid() && entry in ents && FirstAt(entry, prev, key, i)
      modifies this`chains, this`ents, this`sz, this`lists, buckets, ents`next
      ensures Valid() && ents == old(ents) - {entry} && sz == old(sz) - 1
      ensures ListOf(old(lists), name(key)) != [] && lists == With(old(lists), name(key), ListOf(old(lists), name(key))[1..])
    {
      hide Sound, Inhabited, Named, Knows, HashBits, CutFrom, ListOf, With;
      SoundFacts();
      NamedCut(chains, capBits, hash, name, names, lists, i, key);
      KnowsFewer(ents, ents - {entry}, names, name);
      UnlinkEntry(entry, prev, key, i);
      lists := With(lists, name(key), ListOf(lists, name(key))[1..]);
    }

    /** hashmap__delete. */
    method Delete(key: K) returns (removed: Option<(K, V)>)
      requires Valid()
      modifies this, buckets, ents`next
      ensures Valid() && buckets == old(buckets) && ents <= old(ents)
      ensures removed == old(Front(Meaning(), name(key))) && Meaning() == Remove(old(Meaning()), name(key))
    {
      hide Sound, Inhabited, Apart, Named, Knows, BookOf, HashBits, Remove, With, FirstAt;
      Listed();
      ghost var snap := Snap(ents);
      BookPairs(lists, snap, names, sz, capBits, name(key));
      var entry, prev, i := FindEntry(key);
      if entry == null {
        Missing(name(key));
        return None;
      }
      Lists(name(key));
      BookCut(lists, snap, names, sz, capBits, name(key));
      removed := Some((entry.key, entry.value));
      UnlinkNamed(entry, prev, key, i);
      assert Snap(ents) == snap - {entry};
    }

    lemma Missing(n: N)
      requires Valid() && ListOf(lists, n) == []
      ensures Front(Meaning(), n) == None && Remove(Meaning(), n) == Meaning()
    {
      hide Sound, Named, Knows, Apart;
      Listed();
    }

    /** One operation, as a step of the multimap. */
    method Apply(op: Operation<K, V>) returns (out: Outcome<K, V>)
      requires Valid()
      modifies this, buckets, ents
      ensures Valid() && (buckets == old(buckets) || fresh(buckets)) && fresh(ents - old(ents))
      ensures (out, Meaning()) == Perform(old(Meaning()), op, name)
    {
      hide Valid, Meaning, Front, Multimap.Insert, Remove;
      match op {
        case Insertion(key, value, strategy, canGrow, canAllocate) =>
          var status, previous := Insert(key, value, strategy, canGrow, canAllocate);
          out := Inserted(status, previous);
        case Deletion(key) =>
          var removed := Delete(key);
          out := Deleted(removed);
        case Query(key) =>
          var value := Find(key);
          out := Answered(value);
      }
    }
  }

  /** For every sequence of insertions with any strategy, deletions and lookups, under any pattern of
      allocation failures and across any number of growths, outcomes and size are those of the
      multimap; without APPEND, they are those of a mathematical map. */
  method Run<K(!new), V, N(!new)>(hash: K -> nat, equal: (K, K) -> bool, ghost name: K -> N, ops: seq<Operation<K, V>>)
      returns (outs: seq<Outcome<K, V>>, size: nat)
    requires Lawful(hash, equal, name)
    ensures |outs| == |ops| && Follows(ops, outs, name) && size == Multimap.Run(ops, name).size
    ensures (forall i :: 0 <= i < |ops| && ops[i].Insertion? ==> ops[i].strategy != Append) ==>
              AllAgree(ops, outs, name) && size == |After(ops, outs, |ops|, name)|
  {
    hide Lawful, Perform, AllAgree, After, Multimap.Run, Map.Valid, Map.Meaning;
    RunNone(ops, name);
    var t := new Map<K, V, N>(hash, equal, name);
    outs := [];
    while |outs| < |ops|
      invariant |outs| <= |ops| && t.name == name && t.Valid() && t.Meaning() == Multimap.Run(ops[..|outs|], name)
      invariant Follows(ops, outs, name)
      invariant fresh(t) && (t.buckets != null ==> fresh(t.buckets)) && fresh(t.ents)
    {
      RunNext(ops, |outs|, name);
      var out := t.Apply(ops[|outs|]);
      outs := outs + [out];
    }
    assert ops[..|ops|] == ops;
    size := t.Size();
    if forall i :: 0 <= i < |ops| && ops[i].Insertion? ==> ops[i].strategy != Append {
      PlainRun(ops, outs, name);
    }
  }
}
