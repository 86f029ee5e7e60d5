/** The type graph of a BTF table, and the paths through it (lib/libbpf/src/btf_dump.c). */
module BtfGraph {
  import opened Finite

  /** A type, by what the ordering does with it. STRUCT and UNION are Composite; ENUM and FWD are
      Enum; VOLATILE, CONST and RESTRICT are Qualifier; FUNC, VAR and DATASEC are Ignored. */
  datatype Kind =
    | Int
    | Ptr(target: nat)
    | Array(elem: nat)
    | Composite(named: bool, members: seq<nat>)
    | Enum(named: bool)
    | Typedef(target: nat)
    | Qualifier(target: nat)
    | FuncProto(result: nat, params: seq<nat>)
    | Ignored
    | Unknown

  /** What a type that is no struct or union leads on to. */
  function Next(k: Kind): seq<nat> {
    match k
    case Ptr(t) => [t]
    case Array(t) => [t]
    case Typedef(t) => [t]
    case Qualifier(t) => [t]
    case FuncProto(r, ps) => [r] + ps
    case _ => []
  }

  /** What must be complete before a type can be: everything but what is behind a pointer or in a
      function prototype. */
  function Embeds(k: Kind): seq<nat> {
    match k
    case Array(t) => [t]
    case Typedef(t) => [t]
    case Qualifier(t) => [t]
    case Composite(_, ms) => ms
    case _ => []
  }

  ghost predicate Closed(types: seq<Kind>) {
    forall id, t :: 0 <= id < |types| && (t in Next(types[id]) || t in Embeds(types[id])) ==> t < |types|
  }

  // ----- Cycles -----

  /** A walk along Next; it cannot leave a struct or union. */
  ghost predicate Walk(types: seq<Kind>, p: seq<nat>) {
    && (forall i :: 0 <= i < |p| ==> p[i] < |types|)
    && (forall i :: 0 <= i < |p| - 1 ==> p[i + 1] in Next(types[p[i]]))
  }

  /** Every cycle passes through a struct or union. */
  ghost predicate CyclesPassComposites(types: seq<Kind>) {
    forall p :: Walk(types, p) && |p| > 1 ==> p[0] != p[|p| - 1]
  }

  /** A rank falls along every step that does not start at a struct or union. */
  ghost predicate Ranked(types: seq<Kind>, rank: seq<nat>) {
    && |rank| == |types|
    && (forall id, t :: 0 <= id < |types| && t in Next(types[id]) ==> t < |types| && rank[t] < rank[id])
  }

  lemma Falls(types: seq<Kind>, rank: seq<nat>, id: nat, t: nat)
    requires Ranked(types, rank) && id < |types| && t in Next(types[id])
    ensures t < |types| && rank[t] < rank[id]
  {
  }

  /** Every walk from a type ends within k steps. */
  ghost predicate Settled(types: seq<Kind>, id: nat, k: nat)
    requires id < |types|
    decreases k
  {
    forall t :: t in Next(types[id]) ==> k > 0 && t < |types| && Settled(types, t, k - 1)
  }

  lemma {:induction false} SettledMonotone(types: seq<Kind>, id: nat, k: nat, n: nat)
    requires id < |types| && k <= n && Settled(types, id, k)
    ensures Settled(types, id, n)
    decreases k
  {
    hide Next;
    forall t | t in Next(types[id])
      ensures n > 0 && t < |types| && Settled(types, t, n - 1)
    {
      SettledMonotone(types, t, k - 1, n - 1);
    }
  }

  ghost function Least(types: seq<Kind>, id: nat, k: nat): (r: nat)
    requires id < |types| && Settled(types, id, k)
    ensures r <= k && Settled(types, id, r)
  {
    if k > 0 && Settled(types, id, k - 1) then Least(types, id, k - 1) else k
  }

  lemma {:induction false} LeastIsLeast(types: seq<Kind>, id: nat, n: nat, k: nat)
    requires id < |types| && k <= n && Settled(types, id, k) && Settled(types, id, n)
    ensures Least(types, id, n) <= k
    decreases n
  {
    hide Next;
    if k < n {
      SettledMonotone(types, id, k, n - 1);
      LeastIsLeast(types, id, n - 1, k);
    }
  }

  /** A type that is not settled after k steps starts a walk of k + 1 types. */
  lemma {:induction false} UnsettledWalk(types: seq<Kind>, id: nat, k: nat) returns (p: seq<nat>)
    requires Closed(types) && id < |types| && !Settled(types, id, k)
    ensures Walk(types, p) && |p| == k + 1 && p[0] == id
    decreases k
  {
    if k == 0 {
      p := [id];
    } else {
      var t :| t in Next(types[id]) && !Settled(types, t, k - 1);
      var q := UnsettledWalk(types, t, k - 1);
      p := [id] + q;
    }
  }

  ghost function Elements(p: seq<nat>): set<nat> {
    set x | x in p
  }

  lemma {:induction false} DistinctCount(p: seq<nat>, n: nat)
    requires forall i :: 0 <= i < |p| ==> p[i] < n
    requires forall i, j :: 0 <= i < j < |p| ==> p[i] != p[j]
    ensures |p| <= n
  {
    AllDistinct(p);
    Bounded(Elements(p), n);
  }

  lemma {:induction false} AllDistinct(p: seq<nat>)
    requires forall i, j :: 0 <= i < j < |p| ==> p[i] != p[j]
    ensures |Elements(p)| == |p|
  {
    if p != [] {
      var q, x := p[..|p| - 1], p[|p| - 1];
      AllDistinct(q);
      assert Elements(p) == Elements(q) + {x};
    }
  }

  lemma SubWalk(types: seq<Kind>, p: seq<nat>, i: nat, j: nat)
    requires Walk(types, p) && i < j < |p| && p[i] == p[j]
    ensures !CyclesPassComposites(types)
  {
    hide Next;
    var q := p[i..j + 1];
    assert forall h :: 0 <= h < |q| ==> q[h] == p[i + h];
    assert Walk(types, q) && |q| > 1 && q[0] == q[|q| - 1];
  }

  lemma LongWalkRepeats(types: seq<Kind>, p: seq<nat>)
    requires Walk(types, p) && |p| > |types|
    ensures !CyclesPassComposites(types)
  {
    hide Next, CyclesPassComposites;
    if i, j :| 0 <= i < j < |p| && p[i] == p[j] {
      SubWalk(types, p, i, j);
    } else {
      DistinctCount(p, |types|);
    }
  }

  /** If every cycle passes through a struct or union, every walk is short. */
  lemma AllSettled(types: seq<Kind>, id: nat)
    requires Closed(types) && CyclesPassComposites(types) && id < |types|
    ensures Settled(types, id, |types|)
  {
    hide Settled, CyclesPassComposites, Walk;
    if !Settled(types, id, |types|) {
      var p := UnsettledWalk(types, id, |types|);
      LongWalkRepeats(types, p);
    }
  }

  /** Ranks exist exactly when every cycle passes through a struct or union. */
  lemma RankExists(types: seq<Kind>) returns (rank: seq<nat>)
    requires Closed(types) && CyclesPassComposites(types)
    ensures Ranked(types, rank)
  {
    var n := |types|;
    forall id | 0 <= id < n
      ensures Settled(types, id, n)
    {
      AllSettled(types, id);
    }
    rank := seq(n, id requires 0 <= id < n && Settled(types, id, n) => Least(types, id, n));
    forall id, t | 0 <= id < n && t in Next(types[id])
      ensures t < n && rank[t] < rank[id]
    {
      assert Settled(types, id, rank[id]);
      LeastIsLeast(types, t, n, rank[id] - 1);
    }
  }

  lemma {:induction false} WalkFalls(types: seq<Kind>, rank: seq<nat>, p: seq<nat>, j: nat)
    requires Ranked(types, rank) && Walk(types, p) && 0 < j < |p|
    ensures rank[p[j]] < rank[p[0]]
  {
    assert p[j] in Next(types[p[j - 1]]);
    if j > 1 {
      WalkFalls(types, rank, p, j - 1);
    }
  }

  lemma RankedHasNoFreeCycle(types: seq<Kind>, rank: seq<nat>)
    requires Ranked(types, rank)
    ensures CyclesPassComposites(types)
  {
    forall p | Walk(types, p) && |p| > 1
      ensures p[0] != p[|p| - 1]
    {
      WalkFalls(types, rank, p, |p| - 1);
    }
  }
}
