/** The visits of the search that orders type definitions: which of them the search of
    lib/libbpf/src/btf_dump.c has to refuse, and what it has seen when it refuses none. */
module BtfSearch {
  import opened BtfGraph

  /** Strong is the return value 1, Weak is 0, the failures are -ELOOP, -ENOMEM and -EINVAL. */
  datatype Result = Strong | Weak | Loop | NoMemory | Invalid {
    predicate Failed() {
      Loop? || NoMemory? || Invalid?
    }

    predicate Refused() {
      Loop? || Invalid?
    }
  }

  /** A visit of the search: a type, and whether a pointer lies between it and the last struct. */
  datatype Visit = Visit(id: nat, behind: bool)

  /** One visit leads to another. A named struct or union behind a pointer leads nowhere. What a
      function prototype mentions is as far behind pointers as the prototype is; on a firm trail it
      always counts as behind one. */
  ghost predicate Leads(types: seq<Kind>, a: Visit, b: Visit, firm: bool) {
    a.id < |types| &&
    match types[a.id]
    case Ptr(t) => b == Visit(t, true)
    case Composite(named, ms) => !(a.behind && named) && b.id in ms && !b.behind
    case FuncProto(_, _) => b.id in Next(types[a.id]) && b.behind == (a.behind || firm)
    case k => b.id in Next(k) && b.behind == a.behind
  }

  ghost predicate Trail(types: seq<Kind>, w: seq<Visit>, firm: bool) {
    && |w| > 0 && (forall i :: 0 <= i < |w| ==> w[i].id < |types|)
    && (forall i :: 0 <= i < |w| - 1 ==> Leads(types, w[i], w[i + 1], firm))
  }

  ghost predicate Passes(w: seq<Visit>, id: nat) {
    exists i :: 0 <= i < |w| && w[i].id == id
  }

  /** A reason to refuse: a trail that comes back to a struct or union where a forward declaration
      does not help, or one that ends at a type of unknown kind. */
  ghost predicate Explains(types: seq<Kind>, w: seq<Visit>, from: Visit, r: Result, firm: bool) {
    && Trail(types, w, firm) && w[0] == from
    && var last := w[|w| - 1];
       if r == Loop
       then types[last.id].Composite? && !(last.behind && types[last.id].named) && Passes(w[..|w| - 1], last.id)
       else last.id != 0 && types[last.id].Unknown?
  }

  lemma TrailGrows(types: seq<Kind>, w: seq<Visit>, v: Visit, firm: bool)
    requires Trail(types, w, firm) && Leads(types, w[|w| - 1], v, firm) && v.id < |types|
    ensures Trail(types, w + [v], firm)
  {
    hide Leads;
  }

  // ----- What has been searched -----

  /** The kinds whose search is remembered. */
  predicate Remembered(k: Kind) {
    k.Composite? || k.Enum? || k.Typedef? || k.Ptr?
  }

  /** A visit that would succeed at once or lead to such visits only, given the types marked. */
  ghost predicate Clear(types: seq<Kind>, rank: seq<nat>, v: Visit, marks: seq<nat>)
    requires Ranked(types, rank) && v.id < |types|
    decreases rank[v.id]
  {
    || v.id == 0 || v.id in marks
    || match types[v.id]
       case Int => true
       case Ignored => true
       case Composite(named, _) => v.behind && named
       case Array(t) => Falls(types, rank, v.id, t); Clear(types, rank, Visit(t, v.behind), marks)
       case Qualifier(t) => Falls(types, rank, v.id, t); Clear(types, rank, Visit(t, v.behind), marks)
       case Typedef(t) => Falls(types, rank, v.id, t); v.behind && Clear(types, rank, Visit(t, true), marks)
       case FuncProto(r, ps) => forall t :: t in Next(types[v.id]) ==> (Falls(types, rank, v.id, t); Clear(types, rank, Visit(t, true), marks))
       case _ => false
  }

  /** Whatever a type leads to is clear. */
  ghost predicate Through(types: seq<Kind>, rank: seq<nat>, id: nat, marks: seq<nat>)
    requires Ranked(types, rank)
  {
    forall u :: Leads(types, Visit(id, false), u, true) ==> u.id < |types| && Clear(types, rank, u, marks)
  }

  /** Every type was marked after all it leads to had become clear. */
  ghost predicate Searched(types: seq<Kind>, rank: seq<nat>, marks: seq<nat>)
    requires Ranked(types, rank)
  {
    forall p :: 0 <= p < |marks| ==> marks[p] < |types| && Remembered(types[marks[p]]) && Through(types, rank, marks[p], marks[..p])
  }

  lemma {:induction false} ClearGrows(types: seq<Kind>, rank: seq<nat>, v: Visit, marks: seq<nat>, more: seq<nat>)
    requires Ranked(types, rank) && v.id < |types| && marks <= more && Clear(types, rank, v, marks)
    ensures Clear(types, rank, v, more)
    decreases rank[v.id]
  {
    if v.id != 0 && v.id !in marks {
      match types[v.id]
      case Array(t) => ClearGrows(types, rank, Visit(t, v.behind), marks, more);
      case Qualifier(t) => ClearGrows(types, rank, Visit(t, v.behind), marks, more);
      case Typedef(t) => ClearGrows(types, rank, Visit(t, true), marks, more);
      case FuncProto(r, ps) =>
        forall t | t in Next(types[v.id])
          ensures t < |types| && Clear(types, rank, Visit(t, true), more)
        {
          ClearGrows(types, rank, Visit(t, true), marks, more);
        }
      case _ =>
    }
  }

  /** Behind a pointer less has to be complete. */
  lemma {:induction false} ClearBehind(types: seq<Kind>, rank: seq<nat>, id: nat, marks: seq<nat>)
    requires Ranked(types, rank) && id < |types| && Clear(types, rank, Visit(id, false), marks)
    ensures Clear(types, rank, Visit(id, true), marks)
    decreases rank[id]
  {
    if id != 0 && id !in marks {
      match types[id]
      case Array(t) => ClearBehind(types, rank, t, marks);
      case Qualifier(t) => ClearBehind(types, rank, t, marks);
      case _ =>
    }
  }

  /** The first n of several types are clear. */
  ghost predicate AllClear(types: seq<Kind>, rank: seq<nat>, ids: seq<nat>, n: nat, behind: bool, marks: seq<nat>)
    requires Ranked(types, rank) && n <= |ids|
  {
    forall j :: 0 <= j < n ==> ids[j] < |types| && Clear(types, rank, Visit(ids[j], behind), marks)
  }

  lemma NoneLeft(types: seq<Kind>, rank: seq<nat>, ids: seq<nat>, behind: bool, marks: seq<nat>)
    requires Ranked(types, rank)
    ensures AllClear(types, rank, ids, 0, behind, marks)
  {
  }

  /** When one more becomes clear, the earlier ones stay so. */
  lemma AllClearGrows(types: seq<Kind>, rank: seq<nat>, ids: seq<nat>, n: nat, behind: bool, marks: seq<nat>, more: seq<nat>, how: bool)
    requires Ranked(types, rank) && marks <= more && n < |ids| && AllClear(types, rank, ids, n, behind, marks)
    requires ids[n] < |types| && Clear(types, rank, Visit(ids[n], how), more) && (how ==> behind)
    ensures AllClear(types, rank, ids, n + 1, behind, more)
  {
    hide Clear;
    forall j | 0 <= j < n
      ensures Clear(types, rank, Visit(ids[j], behind), more)
    {
      ClearGrows(types, rank, Visit(ids[j], behind), marks, more);
    }
    if behind && !how {
      ClearBehind(types, rank, ids[n], more);
    }
  }

  lemma ClearAtOnce(types: seq<Kind>, rank: seq<nat>, v: Visit, marks: seq<nat>)
    requires Ranked(types, rank) && v.id < |types|
    requires v.id == 0 || v.id in marks || types[v.id].Int? || types[v.id].Ignored? || (types[v.id].Composite? && types[v.id].named && v.behind)
    ensures Clear(types, rank, v, marks)
  {
  }

  /** A type that passes the search on is clear when its target is. */
  lemma ClearPassing(types: seq<Kind>, rank: seq<nat>, v: Visit, t: nat, marks: seq<nat>)
    requires Ranked(types, rank) && v.id < |types| && Next(types[v.id]) == [t] && t < |types|
    requires types[v.id].Array? || types[v.id].Qualifier? || (types[v.id].Typedef? && v.behind)
    requires Clear(types, rank, Visit(t, v.behind), marks)
    ensures Clear(types, rank, v, marks)
  {
  }

  lemma ClearPrototype(types: seq<Kind>, rank: seq<nat>, id: nat, behind: bool, all: seq<nat>, marks: seq<nat>)
    requires Ranked(types, rank) && id < |types| && types[id].FuncProto? && all == Next(types[id])
    requires AllClear(types, rank, all, |all|, true, marks)
    ensures Clear(types, rank, Visit(id, behind), marks)
  {
  }

  lemma ThroughTarget(types: seq<Kind>, rank: seq<nat>, id: nat, marks: seq<nat>, strong: bool)
    requires Ranked(types, rank) && id < |types|
    requires types[id].Ptr? || (types[id].Typedef? && strong)
    requires types[id].target < |types| && Clear(types, rank, Visit(types[id].target, !strong), marks)
    ensures Through(types, rank, id, marks)
  {
    if strong {
      ClearBehind(types, rank, types[id].target, marks);
    }
  }

  lemma ThroughMembers(types: seq<Kind>, rank: seq<nat>, id: nat, marks: seq<nat>)
    requires Ranked(types, rank) && id < |types| && types[id].Composite?
    requires AllClear(types, rank, types[id].members, |types[id].members|, false, marks)
    ensures Through(types, rank, id, marks)
  {
    hide Clear;
  }

  lemma ThroughNothing(types: seq<Kind>, rank: seq<nat>, id: nat, marks: seq<nat>)
    requires Ranked(types, rank) && id < |types| && types[id].Enum?
    ensures Through(types, rank, id, marks)
  {
  }

  lemma SearchedGrows(types: seq<Kind>, rank: seq<nat>, marks: seq<nat>, id: nat)
    requires Ranked(types, rank) && Searched(types, rank, marks)
    requires id < |types| && Remembered(types[id]) && Through(types, rank, id, marks)
    ensures Searched(types, rank, marks + [id])
  {
    hide Through;
    var more := marks + [id];
    forall p | 0 <= p < |more|
      ensures Through(types, rank, more[p], more[..p])
    {
      assert more[..p] == if p < |marks| then marks[..p] else marks;
    }
  }

  // ----- A search that refuses nothing has met no reason to refuse -----

  lemma MarkedStep(types: seq<Kind>, rank: seq<nat>, marks: seq<nat>, p: nat, v: Visit, u: Visit)
    requires Ranked(types, rank) && Searched(types, rank, marks) && p < |marks| && marks[p] == v.id
    requires Leads(types, v, u, true)
    ensures u.id < |types| && Clear(types, rank, u, marks[..p])
  {
    assert Through(types, rank, v.id, marks[..p]);
    if types[v.id].Typedef? && v.behind {
      assert Leads(types, Visit(v.id, false), Visit(u.id, false), true);
      ClearBehind(types, rank, u.id, marks[..p]);
    } else {
      assert Leads(types, Visit(v.id, false), u, true);
    }
  }

  lemma ClearStep(types: seq<Kind>, rank: seq<nat>, marks: seq<nat>, n: nat, v: Visit, u: Visit)
    requires Ranked(types, rank) && |types| > 0 && types[0] == Unknown && Searched(types, rank, marks) && n <= |marks|
    requires v.id < |types| && Clear(types, rank, v, marks[..n]) && Leads(types, v, u, true)
    ensures u.id < |types| && Clear(types, rank, u, marks[..n])
  {
    if v.id in marks[..n] {
      var p :| 0 <= p < n && marks[p] == v.id;
      MarkedStep(types, rank, marks, p, v, u);
      ClearGrows(types, rank, u, marks[..p], marks[..n]);
    } else if u.id in Next(types[v.id]) {
      Falls(types, rank, v.id, u.id);
    }
  }

  lemma {:induction false} ClearTrail(types: seq<Kind>, rank: seq<nat>, marks: seq<nat>, n: nat, w: seq<Visit>, i: nat, j: nat)
    requires Ranked(types, rank) && |types| > 0 && types[0] == Unknown && Searched(types, rank, marks) && n <= |marks|
    requires Trail(types, w, true) && i <= j < |w| && Clear(types, rank, w[i], marks[..n])
    ensures Clear(types, rank, w[j], marks[..n])
    decreases j
  {
    hide Clear, Searched, Leads;
    if i < j {
      ClearTrail(types, rank, marks, n, w, i, j - 1);
      ClearStep(types, rank, marks, n, w[j - 1], w[j]);
    }
  }

  ghost function First(log: seq<nat>, id: nat): (p: nat)
    requires id in log
    ensures p < |log| && log[p] == id && id !in log[..p]
  {
    var front := log[..|log| - 1];
    if id in front then
      var p := First(front, id);
      assert log[..p] == front[..p];
      p
    else |log| - 1
  }

  /** From a visit that the search has cleared, no firm trail gives a reason to refuse. */
  lemma ClearHasNoReason(types: seq<Kind>, rank: seq<nat>, marks: seq<nat>, w: seq<Visit>, r: Result)
    requires Ranked(types, rank) && |types| > 0 && types[0] == Unknown && Searched(types, rank, marks)
    requires |w| > 0 && w[0].id < |types| && Clear(types, rank, w[0], marks)
    ensures !Explains(types, w, w[0], r, true)
  {
    hide Searched, Leads;
    if Explains(types, w, w[0], r, true) {
      var last := w[|w| - 1];
      assert marks[..|marks|] == marks;
      ClearTrail(types, rank, marks, |marks|, w, 0, |w| - 1);
      if r == Loop {
        var i :| 0 <= i < |w| - 1 && w[i].id == last.id;
        var p := First(marks, last.id);
        MarkedStep(types, rank, marks, p, w[i], w[i + 1]);
        ClearTrail(types, rank, marks, p, w, i + 1, |w| - 1);
      } else {
        UnknownUnmarked(types, rank, marks, last.id);
      }
    }
  }

  lemma UnknownUnmarked(types: seq<Kind>, rank: seq<nat>, marks: seq<nat>, id: nat)
    requires Ranked(types, rank) && Searched(types, rank, marks) && id < |types| && types[id].Unknown?
    ensures id !in marks
  {
    hide Through;
  }

  // ----- When firm trails are all that matter -----

  /** The visit is of a function prototype with no pointer before it. */
  ghost predicate Exposed(types: seq<Kind>, v: Visit) {
    v.id < |types| && types[v.id].FuncProto? && !v.behind
  }

  /** From a visit on, a prototype is exposed only as long as no struct or union has been entered,
      and then what it mentions is requested too. */
  ghost predicate Sheltered(types: seq<Kind>, from: Visit, requested: set<nat>) {
    forall w: seq<Visit> :: Trail(types, w, false) && w[0] == from && Exposed(types, w[|w| - 1]) ==>
      && (forall i :: 0 <= i < |w| ==> !types[w[i].id].Composite?)
      && (forall t :: t in Next(types[w[|w| - 1].id]) ==> t in requested)
  }

  /** What follows the last exposed prototype of a trail is a firm trail. */
  lemma {:induction false} FirmTail(types: seq<Kind>, w: seq<Visit>) returns (p: nat)
    requires Trail(types, w, false)
    ensures p < |w| && Trail(types, w[p..], true)
    ensures p > 0 ==> Exposed(types, w[p - 1]) && !w[p].behind && w[p].id in Next(types[w[p - 1].id])
  {
    if |w| == 1 {
      p := 0;
    } else {
      var tail := w[1..];
      assert Trail(types, tail, false);
      var q := FirmTail(types, tail);
      assert tail[q..] == w[q + 1..];
      if q == 0 && Leads(types, w[0], w[1], true) {
        p := 0;
        assert w == [w[0]] + tail;
        FirmFront(types, w[0], tail);
      } else {
        p := q + 1;
        assert q > 0 ==> tail[q - 1] == w[q] && tail[q] == w[p];
      }
    }
    assert w[0..] == w;
  }

  lemma FirmFront(types: seq<Kind>, v: Visit, tail: seq<Visit>)
    requires Trail(types, tail, true) && v.id < |types| && Leads(types, v, tail[0], true)
    ensures Trail(types, [v] + tail, true)
  {
    hide Leads;
    var w := [v] + tail;
    forall i | 0 <= i < |w| - 1
      ensures Leads(types, w[i], w[i + 1], true)
    {
      assert i > 0 ==> w[i] == tail[i - 1] && w[i + 1] == tail[i];
    }
  }

  lemma TrailFront(types: seq<Kind>, w: seq<Visit>, n: nat, firm: bool)
    requires Trail(types, w, firm) && 0 < n <= |w|
    ensures Trail(types, w[..n], firm)
  {
    hide Leads;
  }

  lemma ShelteredFront(types: seq<Kind>, w: seq<Visit>, p: nat, from: Visit, requested: set<nat>)
    requires Trail(types, w, false) && w[0] == from && Sheltered(types, from, requested)
    requires 0 < p < |w| && Exposed(types, w[p - 1]) && w[p].id in Next(types[w[p - 1].id])
    ensures w[p].id in requested && forall i :: 0 <= i < p ==> !types[w[i].id].Composite?
  {
    hide Leads;
    TrailFront(types, w, p, false);
    assert w[..p][p - 1] == w[p - 1];
    assert forall i :: 0 <= i < p ==> w[..p][i] == w[i];
  }

  lemma PassesTail(w: seq<Visit>, p: nat, id: nat)
    requires p < |w| && Passes(w[..|w| - 1], id) && forall i :: 0 <= i < p ==> w[i].id != id
    ensures Passes(w[p..][..|w| - p - 1], id)
  {
    var i :| 0 <= i < |w| - 1 && w[..|w| - 1][i].id == id;
    assert w[p..][..|w| - p - 1][i - p] == w[i];
  }

  /** A reason from a sheltered visit is a firm reason from it, or from something requested. */
  lemma ReasonMoves(types: seq<Kind>, w: seq<Visit>, from: Visit, r: Result, requested: set<nat>) returns (v: seq<Visit>, root: Visit)
    requires Explains(types, w, from, r, false) && Sheltered(types, from, requested)
    ensures Explains(types, v, root, r, true) && (root == from || (root.id in requested && !root.behind))
  {
    hide Leads, Sheltered, Exposed, Passes;
    var p := FirmTail(types, w);
    v := w[p..];
    root := w[p];
    if p > 0 {
      ShelteredFront(types, w, p, from, requested);
    }
    if r == Loop {
      PassesTail(w, p, w[|w| - 1].id);
    }
  }
}
