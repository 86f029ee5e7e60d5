/** The topological ordering of type definitions as a function (lib/libbpf/src/btf_dump.c,
    btf_dump_order_type), and what it guarantees. */
module BtfSpec {
  import opened BtfGraph
  import opened BtfSearch

  datatype OrderState = NotOrdered | Ordering | Ordered

  /** Types that get a definition of their own, or are defined inside another. */
  predicate Defines(k: Kind) {
    k.Composite? || k.Enum? || k.Typedef?
  }

  /** Types that are never marked. */
  predicate Transparent(k: Kind) {
    k.Array? || k.Qualifier? || k.FuncProto? || k.Unknown?
  }

  /** Definitions that are put on the emit queue. */
  predicate Queued(k: Kind, referenced: bool) {
    (k.Composite? && k.named) || (k.Enum? && (k.named || !referenced)) || k.Typedef?
  }

  // ----- What the log of finished definitions says -----

  /** Everything a type embeds is defined, given the definitions finished so far. */
  ghost predicate Finished(types: seq<Kind>, rank: seq<nat>, id: nat, log: seq<nat>)
    requires Ranked(types, rank) && id < |types|
    decreases rank[id]
  {
    match types[id]
    case Array(t) => Falls(types, rank, id, t); Finished(types, rank, t, log)
    case Qualifier(t) => Falls(types, rank, id, t); Finished(types, rank, t, log)
    case k => Defines(k) ==> id in log
  }

  lemma {:induction false} FinishedGrows(types: seq<Kind>, rank: seq<nat>, id: nat, log: seq<nat>, more: seq<nat>)
    requires Ranked(types, rank) && id < |types| && log <= more && Finished(types, rank, id, log)
    ensures Finished(types, rank, id, more)
    decreases rank[id]
  {
    match types[id]
    case Array(t) => Falls(types, rank, id, t); FinishedGrows(types, rank, t, log, more);
    case Qualifier(t) => Falls(types, rank, id, t); FinishedGrows(types, rank, t, log, more);
    case k => assert id in log ==> id in more;
  }

  /** When definition number p of the log was finished, everything it embeds had been. */
  ghost predicate InOrder(types: seq<Kind>, rank: seq<nat>, log: seq<nat>, p: nat)
    requires Ranked(types, rank) && Closed(types) && p < |log|
  {
    && log[p] < |types| && Defines(types[log[p]])
    && forall t :: t in Embeds(types[log[p]]) ==> t < |types| && Finished(types, rank, t, log[..p])
  }

  ghost predicate LogOk(types: seq<Kind>, rank: seq<nat>, log: seq<nat>)
    requires Ranked(types, rank) && Closed(types)
  {
    && (forall p :: 0 <= p < |log| ==> InOrder(types, rank, log, p))
    && (forall p, q :: 0 <= p < q < |log| && log[p] < |types| && !types[log[p]].Typedef? ==> log[p] != log[q])
  }

  lemma LogGrows(types: seq<Kind>, rank: seq<nat>, log: seq<nat>, id: nat)
    requires Ranked(types, rank) && Closed(types) && LogOk(types, rank, log)
    requires id < |types| && Defines(types[id]) && (types[id].Typedef? || id !in log)
    requires forall t :: t in Embeds(types[id]) ==> t < |types| && Finished(types, rank, t, log)
    ensures LogOk(types, rank, log + [id])
  {
    hide Finished, Embeds;
    var more := log + [id];
    forall p | 0 <= p < |more|
      ensures InOrder(types, rank, more, p)
    {
      if p < |log| {
        assert InOrder(types, rank, log, p);
        assert more[..p] == log[..p];
      } else {
        assert more[..p] == log;
      }
    }
  }

  /** The definitions of a log that are put on the queue. */
  ghost function Definitions(types: seq<Kind>, referenced: seq<bool>, log: seq<nat>): seq<nat>
    requires |referenced| == |types|
  {
    if log == [] then []
    else
      var id := log[|log| - 1];
      Definitions(types, referenced, log[..|log| - 1])
      + if id < |types| && Queued(types[id], referenced[id]) then [id] else []
  }

  lemma DefinitionsGrow(types: seq<Kind>, referenced: seq<bool>, log: seq<nat>, id: nat)
    requires |referenced| == |types|
    ensures Definitions(types, referenced, log + [id])
         == Definitions(types, referenced, log) + if id < |types| && Queued(types[id], referenced[id]) then [id] else []
  {
    assert (log + [id])[..|log|] == log;
  }

  // ----- The search -----

  /** A type table, the outcome of each reallocation of the queue, and a rank of the types. */
  datatype Table = Table(types: seq<Kind>, referenced: seq<bool>, memory: nat -> bool, rank: seq<nat>)

  ghost predicate Fit(tb: Table) {
    Ranked(tb.types, tb.rank) && Closed(tb.types) && |tb.referenced| == |tb.types| > 0 && tb.types[0] == Unknown
  }

  /** The states of the types and the queue. The log of the definitions finished, and the marks, the
      types searched other than those that lead nowhere, are history. */
  datatype Memo = Memo(order: seq<OrderState>, queue: seq<nat>, cap: nat, reallocs: nat, log: seq<nat>, marks: seq<nat>)

  ghost predicate Fits(tb: Table, m: Memo) {
    Fit(tb) && |m.order| == |tb.types|
  }

  /** Structs and unions not visited yet: each is visited once. */
  ghost function Unvisited(tb: Table, m: Memo): set<nat> {
    set id: nat | id < |tb.types| && id < |m.order| && tb.types[id].Composite? && m.order[id] == NotOrdered
  }

  function NextCap(cap: nat): nat {
    if cap * 3 / 2 < 16 then 16 else cap * 3 / 2
  }

  ghost function Enqueued(tb: Table, m: Memo, id: nat): (bool, Memo) {
    if |m.queue| < m.cap then (true, m.(queue := m.queue + [id]))
    else if tb.memory(m.reallocs + 1) then (true, m.(queue := m.queue + [id], cap := NextCap(m.cap), reallocs := m.reallocs + 1))
    else (false, m.(reallocs := m.reallocs + 1))
  }

  ghost function Set(m: Memo, id: nat, s: OrderState): (n: Memo)
    requires id < |m.order|
    ensures |n.order| == |m.order|
  {
    m.(order := m.order[id := s])
  }

  ghost function Logged(m: Memo, id: nat): Memo {
    m.(log := m.log + [id], marks := m.marks + [id])
  }

  ghost function Marked(m: Memo, id: nat): Memo {
    m.(marks := m.marks + [id])
  }

  /** A definition is complete. */
  ghost function Completed(tb: Table, m: Memo, id: nat): (res: (Result, Memo))
    requires Fits(tb, m) && id < |tb.types|
    ensures Fits(tb, res.1) && Unvisited(tb, res.1) <= Unvisited(tb, m)
  {
    if Queued(tb.types[id], tb.referenced[id]) then
      var (ok, n) := Enqueued(tb, m, id);
      if ok then (Strong, Logged(Set(n, id, Ordered), id)) else (NoMemory, n)
    else (Strong, Logged(Set(m, id, Ordered), id))
  }

  /** More than every rank. */
  ghost function Ceiling(rank: seq<nat>): (c: nat)
    ensures forall i :: 0 <= i < |rank| ==> rank[i] < c
  {
    if rank == [] then 0
    else
      var c := Ceiling(rank[..|rank| - 1]);
      if rank[|rank| - 1] < c then c else rank[|rank| - 1] + 1
  }

  ghost function Search(tb: Table, m: Memo, id: nat, ptr: bool): (res: (Result, Memo))
    requires Fits(tb, m) && id < |tb.types|
    ensures Fits(tb, res.1) && Unvisited(tb, res.1) <= Unvisited(tb, m)
    decreases Unvisited(tb, m), tb.rank[id], 2, 0
  {
    if m.order[id] == Ordered then (Strong, m)
    else if m.order[id] == Ordering then
      (if tb.types[id].Composite? && ptr && tb.types[id].named then Weak else Loop, m)
    else
      match tb.types[id]
      case Int => (Weak, Set(m, id, Ordered))
      case Ptr(t) =>
        Falls(tb.types, tb.rank, id, t);
        var (r, n) := Search(tb, m, t, true);
        (r, Marked(Set(n, id, Ordered), id))
      case Array(t) => Falls(tb.types, tb.rank, id, t); Search(tb, m, t, ptr)
      case Composite(named, _) => if ptr && named then (Weak, m) else SearchComposite(tb, m, id)
      case Enum(_) => Completed(tb, m, id)
      case Typedef(t) =>
        Falls(tb.types, tb.rank, id, t);
        var (r, n) := Search(tb, m, t, ptr);
        if r.Failed() || (ptr && r == Weak) then (r, n) else Completed(tb, n, id)
      case Qualifier(t) => Falls(tb.types, tb.rank, id, t); Search(tb, m, t, ptr)
      case FuncProto(_, _) => SearchMentions(tb, m, id, 0, ptr, false)
      case Ignored => (Weak, Set(m, id, Ordered))
      case Unknown => (Invalid, m)
  }

  ghost function SearchComposite(tb: Table, m: Memo, id: nat): (res: (Result, Memo))
    requires Fits(tb, m) && id < |tb.types| && tb.types[id].Composite? && m.order[id] == NotOrdered
    ensures Fits(tb, res.1) && Unvisited(tb, res.1) <= Unvisited(tb, m)
    decreases Unvisited(tb, m), tb.rank[id], 1, 0
  {
    var entered := Set(m, id, Ordering);
    assert id in Unvisited(tb, m) && id !in Unvisited(tb, entered);
    assert Unvisited(tb, entered) < Unvisited(tb, m);
    var (r, n) := SearchMembers(tb, entered, id, 0);
    if r.Failed() then (r, n) else Completed(tb, n, id)
  }

  /** The members of a struct or union, from the i-th on. */
  ghost function SearchMembers(tb: Table, m: Memo, id: nat, i: nat): (res: (Result, Memo))
    requires Fits(tb, m) && id < |tb.types| && tb.types[id].Composite? && i <= |tb.types[id].members|
    ensures Fits(tb, res.1) && Unvisited(tb, res.1) <= Unvisited(tb, m)
    decreases Unvisited(tb, m), Ceiling(tb.rank), 0, |tb.types[id].members| - i
  {
    var ms := tb.types[id].members;
    if i == |ms| then (Strong, m)
    else
      assert ms[i] in Embeds(tb.types[id]);
      var (r, n) := Search(tb, m, ms[i], false);
      if r.Failed() then (r, n) else SearchMembers(tb, n, id, i + 1)
  }

  /** The types that a prototype mentions, from the i-th on. */
  ghost function SearchMentions(tb: Table, m: Memo, id: nat, i: nat, ptr: bool, strong: bool): (res: (Result, Memo))
    requires Fits(tb, m) && id < |tb.types| && tb.types[id].FuncProto? && i <= |Next(tb.types[id])|
    ensures Fits(tb, res.1) && Unvisited(tb, res.1) <= Unvisited(tb, m)
    decreases Unvisited(tb, m), tb.rank[id], 1, |Next(tb.types[id])| - i
  {
    var ts := Next(tb.types[id]);
    if i == |ts| then (if strong then Strong else Weak, m)
    else
      Falls(tb.types, tb.rank, id, ts[i]);
      var (r, n) := Search(tb, m, ts[i], ptr);
      if r.Failed() then (r, n) else SearchMentions(tb, n, id, i + 1, ptr, strong || r == Strong)
  }

  // ----- What every search keeps -----

  /** The definitions logged are in order and those marked, and the queue holds the ones to be
      emitted after what earlier requests put on it. */
  ghost predicate Sound(tb: Table, m: Memo, past: seq<nat>)
    requires Fits(tb, m)
  {
    && m.order[0] == Ordered && LogOk(tb.types, tb.rank, m.log)
    && (forall id :: 0 <= id < |tb.types| && Defines(tb.types[id]) && m.order[id] == Ordered ==> id in m.log)
    && (forall id :: id in m.log ==> id < |tb.types| && m.order[id] == Ordered)
    && (forall id :: 0 <= id < |tb.types| && Remembered(tb.types[id]) && m.order[id] == Ordered ==> id in m.marks)
    && (forall id :: 0 < id < |tb.types| && Transparent(tb.types[id]) ==> m.order[id] == NotOrdered)
    && (forall id :: 0 <= id < |tb.types| && m.order[id] == Ordering ==> tb.types[id].Composite?)
    && |m.queue| <= m.cap
    && past + m.queue == Definitions(tb.types, tb.referenced, m.log) == Definitions(tb.types, tb.referenced, m.marks)
  }

  /** Definitions are only added, and a type keeps the state it has been given. */
  ghost predicate Advances(m: Memo, n: Memo) {
    && |m.order| == |n.order| && m.log <= n.log && m.marks <= n.marks
    && (forall i :: 0 <= i < |m.order| && m.order[i] != NotOrdered ==> n.order[i] == m.order[i])
  }

  /** No struct or union is left half visited. */
  ghost predicate Settles(m: Memo, n: Memo) {
    |m.order| == |n.order| && forall i :: 0 <= i < |m.order| && n.order[i] == Ordering ==> m.order[i] == Ordering
  }

  lemma Onward(a: Memo, b: Memo, c: Memo)
    ensures Advances(a, b) && Advances(b, c) ==> Advances(a, c)
    ensures Settles(a, b) && Settles(b, c) ==> Settles(a, c)
  {
  }

  lemma EnqueuedFacts(tb: Table, m: Memo, id: nat)
    ensures var (ok, n) := Enqueued(tb, m, id);
            && n.order == m.order && n.log == m.log && n.marks == m.marks && (|m.queue| <= m.cap ==> |n.queue| <= n.cap)
            && (if ok then n.queue == m.queue + [id] else n.queue == m.queue && !tb.memory(n.reallocs))
  {
  }

  lemma CompletedSound(tb: Table, m: Memo, past: seq<nat>, id: nat)
    requires Fits(tb, m) && Sound(tb, m, past) && id < |tb.types| && Defines(tb.types[id])
    requires tb.types[id].Typedef? || m.order[id] != Ordered
    requires forall t :: t in Embeds(tb.types[id]) ==> t < |tb.types| && Finished(tb.types, tb.rank, t, m.log)
    ensures var (r, n) := Completed(tb, m, id);
            && Sound(tb, n, past) && (r == Strong || r == NoMemory)
            && (r == Strong ==> n.log == m.log + [id] && n.marks == m.marks + [id] && n.order == m.order[id := Ordered])
            && (r == NoMemory ==> n.log == m.log && n.marks == m.marks && n.order == m.order && !tb.memory(n.reallocs))
  {
    hide Finished, LogOk, Definitions, Enqueued;
    EnqueuedFacts(tb, m, id);
    DefinitionsGrow(tb.types, tb.referenced, m.log, id);
    DefinitionsGrow(tb.types, tb.referenced, m.marks, id);
    LogGrows(tb.types, tb.rank, m.log, id);
    var q := Definitions(tb.types, tb.referenced, m.log);
    assert (past + m.queue) + [id] == past + (m.queue + [id]);
  }

  lemma SetSound(tb: Table, m: Memo, past: seq<nat>, id: nat)
    requires Fits(tb, m) && Sound(tb, m, past) && id < |tb.types| && m.order[id] == NotOrdered
    ensures tb.types[id].Int? || tb.types[id].Ignored? ==> Sound(tb, Set(m, id, Ordered), past)
    ensures tb.types[id].Composite? ==> Sound(tb, Set(m, id, Ordering), past)
  {
    hide LogOk, Definitions;
  }

  lemma MarkedSound(tb: Table, m: Memo, past: seq<nat>, id: nat)
    requires Fits(tb, m) && Sound(tb, m, past) && id < |tb.types| && tb.types[id].Ptr?
    ensures Sound(tb, Marked(Set(m, id, Ordered), id), past)
  {
    hide LogOk, Definitions;
    DefinitionsGrow(tb.types, tb.referenced, m.marks, id);
  }

  /** Success without a pointer, or a strong result, means that everything embedded is defined. */
  ghost predicate Kept(tb: Table, m: Memo, past: seq<nat>, res: (Result, Memo))
    requires Fits(tb, m) && Fits(tb, res.1)
  {
    && Sound(tb, res.1, past) && Advances(m, res.1) && (!res.0.Failed() ==> Settles(m, res.1))
    && (res.0 == NoMemory ==> !tb.memory(res.1.reallocs))
  }

  ghost predicate Yields(tb: Table, id: nat, ptr: bool, res: (Result, Memo))
    requires Fits(tb, res.1) && id < |tb.types|
  {
    !res.0.Failed() ==>
      && (!ptr || res.0 == Strong ==> Finished(tb.types, tb.rank, id, res.1.log))
      && (!ptr && Defines(tb.types[id]) ==> res.0 == Strong)
  }

  // One step of the search, by kind.

  lemma DoneStep(tb: Table, m: Memo, id: nat, ptr: bool)
    requires Fits(tb, m) && id < |tb.types|
    ensures m.order[id] == Ordered ==> Search(tb, m, id, ptr) == (Strong, m)
    ensures m.order[id] == Ordering ==>
              Search(tb, m, id, ptr) == (if tb.types[id].Composite? && ptr && tb.types[id].named then Weak else Loop, m)
    ensures m.order[id] == NotOrdered && tb.types[id].Unknown? ==> Search(tb, m, id, ptr) == (Invalid, m)
    ensures m.order[id] == NotOrdered && tb.types[id].Composite? && tb.types[id].named && ptr ==> Search(tb, m, id, ptr) == (Weak, m)
    ensures m.order[id] == NotOrdered && (tb.types[id].Int? || tb.types[id].Ignored?) ==> Search(tb, m, id, ptr) == (Weak, Set(m, id, Ordered))
    ensures m.order[id] == NotOrdered && tb.types[id].Enum? ==> Search(tb, m, id, ptr) == Completed(tb, m, id)
  {
  }

  lemma PassingStep(tb: Table, m: Memo, id: nat, ptr: bool, t: nat)
    requires Fits(tb, m) && id < |tb.types| && m.order[id] == NotOrdered
    requires (tb.types[id].Array? || tb.types[id].Qualifier?) && Next(tb.types[id]) == [t]
    ensures t < |tb.types| && tb.rank[t] < tb.rank[id] && Search(tb, m, id, ptr) == Search(tb, m, t, ptr)
  {
    Falls(tb.types, tb.rank, id, t);
  }

  lemma PointerStep(tb: Table, m: Memo, id: nat, ptr: bool, t: nat)
    requires Fits(tb, m) && id < |tb.types| && m.order[id] == NotOrdered && tb.types[id] == Ptr(t)
    ensures t < |tb.types| && tb.rank[t] < tb.rank[id]
    ensures Search(tb, m, id, ptr) == (Search(tb, m, t, true).0, Marked(Set(Search(tb, m, t, true).1, id, Ordered), id))
  {
    Falls(tb.types, tb.rank, id, t);
  }

  lemma TypedefStep(tb: Table, m: Memo, id: nat, ptr: bool, t: nat)
    requires Fits(tb, m) && id < |tb.types| && m.order[id] == NotOrdered && tb.types[id] == Typedef(t)
    ensures t < |tb.types| && tb.rank[t] < tb.rank[id]
    ensures var (r, n) := Search(tb, m, t, ptr);
            Search(tb, m, id, ptr) == if r.Failed() || (ptr && r == Weak) then (r, n) else Completed(tb, n, id)
  {
    Falls(tb.types, tb.rank, id, t);
  }

  lemma CompositeStep(tb: Table, m: Memo, id: nat, ptr: bool)
    requires Fits(tb, m) && id < |tb.types| && m.order[id] == NotOrdered && tb.types[id].Composite? && !(ptr && tb.types[id].named)
    ensures Unvisited(tb, Set(m, id, Ordering)) < Unvisited(tb, m)
    ensures var (r, n) := SearchMembers(tb, Set(m, id, Ordering), id, 0);
            Search(tb, m, id, ptr) == if r.Failed() then (r, n) else Completed(tb, n, id)
  {
    assert id in Unvisited(tb, m) && id !in Unvisited(tb, Set(m, id, Ordering));
  }

  lemma PrototypeStep(tb: Table, m: Memo, id: nat, ptr: bool)
    requires Fits(tb, m) && id < |tb.types| && m.order[id] == NotOrdered && tb.types[id].FuncProto?
    ensures Search(tb, m, id, ptr) == SearchMentions(tb, m, id, 0, ptr, false)
  {
  }

  lemma MembersStep(tb: Table, m: Memo, id: nat, i: nat)
    requires Fits(tb, m) && id < |tb.types| && tb.types[id].Composite? && i < |tb.types[id].members|
    ensures var t := tb.types[id].members[i];
            && t < |tb.types|
            && var (r, n) := Search(tb, m, t, false);
               SearchMembers(tb, m, id, i) == if r.Failed() then (r, n) else SearchMembers(tb, n, id, i + 1)
  {
    hide Search;
    assert tb.types[id].members[i] in Embeds(tb.types[id]);
  }

  lemma MembersEnd(tb: Table, m: Memo, id: nat)
    requires Fits(tb, m) && id < |tb.types| && tb.types[id].Composite?
    ensures SearchMembers(tb, m, id, |tb.types[id].members|) == (Strong, m)
  {
  }

  lemma MentionsStep(tb: Table, m: Memo, id: nat, i: nat, ptr: bool, strong: bool)
    requires Fits(tb, m) && id < |tb.types| && tb.types[id].FuncProto? && i < |Next(tb.types[id])|
    ensures var t := Next(tb.types[id])[i];
            && t < |tb.types| && tb.rank[t] < tb.rank[id]
            && var (r, n) := Search(tb, m, t, ptr);
               SearchMentions(tb, m, id, i, ptr, strong) == if r.Failed() then (r, n) else SearchMentions(tb, n, id, i + 1, ptr, strong || r == Strong)
  {
    hide Search;
    Falls(tb.types, tb.rank, id, Next(tb.types[id])[i]);
  }

  lemma MentionsEnd(tb: Table, m: Memo, id: nat, ptr: bool, strong: bool)
    requires Fits(tb, m) && id < |tb.types| && tb.types[id].FuncProto?
    ensures SearchMentions(tb, m, id, |Next(tb.types[id])|, ptr, strong) == (if strong then Strong else Weak, m)
  {
  }

  // The proof follows the search.

  lemma DoneKeeps(tb: Table, m: Memo, past: seq<nat>, id: nat, ptr: bool)
    requires Fits(tb, m) && Sound(tb, m, past) && id < |tb.types|
    requires m.order[id] != NotOrdered || tb.types[id].Unknown? || (tb.types[id].Composite? && tb.types[id].named && ptr)
    ensures var res := Search(tb, m, id, ptr); Kept(tb, m, past, res) && Yields(tb, id, ptr, res)
  {
    hide LogOk, Definitions, Search, Completed, Unvisited;
    DoneStep(tb, m, id, ptr);
  }

  lemma LeafKeeps(tb: Table, m: Memo, past: seq<nat>, id: nat, ptr: bool)
    requires Fits(tb, m) && Sound(tb, m, past) && id < |tb.types| && m.order[id] == NotOrdered
    requires tb.types[id].Int? || tb.types[id].Ignored? || tb.types[id].Enum?
    ensures var res := Search(tb, m, id, ptr); Kept(tb, m, past, res) && Yields(tb, id, ptr, res)
  {
    hide LogOk, Definitions, Search, Completed, Unvisited, Sound;
    DoneStep(tb, m, id, ptr);
    SetSound(tb, m, past, id);
    if tb.types[id].Enum? {
      CompletedSound(tb, m, past, id);
    }
  }

  lemma {:induction false} SearchKeeps(tb: Table, m: Memo, past: seq<nat>, id: nat, ptr: bool)
    requires Fits(tb, m) && Sound(tb, m, past) && id < |tb.types|
    ensures var res := Search(tb, m, id, ptr); Kept(tb, m, past, res) && Yields(tb, id, ptr, res)
    decreases Unvisited(tb, m), tb.rank[id], 2, 0
  {
    hide LogOk, Definitions, Search, Completed, Unvisited, Sound, Kept, Yields;
    if m.order[id] != NotOrdered {
      DoneKeeps(tb, m, past, id, ptr);
    } else {
      match tb.types[id] {
        case Int => LeafKeeps(tb, m, past, id, ptr);
        case Ignored => LeafKeeps(tb, m, past, id, ptr);
        case Enum(_) => LeafKeeps(tb, m, past, id, ptr);
        case Ptr(t) => PointerKeeps(tb, m, past, id, ptr, t);
        case Array(t) => PassingKeeps(tb, m, past, id, ptr, t);
        case Qualifier(t) => PassingKeeps(tb, m, past, id, ptr, t);
        case Composite(named, _) =>
          if ptr && named {
            DoneKeeps(tb, m, past, id, ptr);
          } else {
            CompositeKeeps(tb, m, past, id, ptr);
          }
        case Typedef(t) => TypedefKeeps(tb, m, past, id, ptr, t);
        case FuncProto(_, _) => PrototypeKeeps(tb, m, past, id, ptr);
        case Unknown => DoneKeeps(tb, m, past, id, ptr);
      }
    }
  }

  lemma {:induction false} PointerKeeps(tb: Table, m: Memo, past: seq<nat>, id: nat, ptr: bool, t: nat)
    requires Fits(tb, m) && Sound(tb, m, past) && id < |tb.types| && tb.types[id] == Ptr(t) && m.order[id] == NotOrdered
    ensures var res := Search(tb, m, id, ptr); Kept(tb, m, past, res) && Yields(tb, id, ptr, res)
    decreases Unvisited(tb, m), tb.rank[id], 1, 0
  {
    hide LogOk, Definitions, Search, Unvisited, Sound;
    PointerStep(tb, m, id, ptr, t);
    SearchKeeps(tb, m, past, t, true);
    MarkedSound(tb, Search(tb, m, t, true).1, past, id);
  }

  lemma {:induction false} PassingKeeps(tb: Table, m: Memo, past: seq<nat>, id: nat, ptr: bool, t: nat)
    requires Fits(tb, m) && Sound(tb, m, past) && id < |tb.types| && m.order[id] == NotOrdered
    requires (tb.types[id].Array? || tb.types[id].Qualifier?) && Next(tb.types[id]) == [t]
    ensures var res := Search(tb, m, id, ptr); Kept(tb, m, past, res) && Yields(tb, id, ptr, res)
    decreases Unvisited(tb, m), tb.rank[id], 1, 0
  {
    hide LogOk, Definitions, Search, Unvisited, Sound;
    PassingStep(tb, m, id, ptr, t);
    SearchKeeps(tb, m, past, t, ptr);
  }

  lemma {:induction false} TypedefKeeps(tb: Table, m: Memo, past: seq<nat>, id: nat, ptr: bool, t: nat)
    requires Fits(tb, m) && Sound(tb, m, past) && id < |tb.types| && tb.types[id] == Typedef(t) && m.order[id] == NotOrdered
    ensures var res := Search(tb, m, id, ptr); Kept(tb, m, past, res) && Yields(tb, id, ptr, res)
    decreases Unvisited(tb, m), tb.rank[id], 1, 0
  {
    hide LogOk, Definitions, Search, Completed, Unvisited, Sound;
    TypedefStep(tb, m, id, ptr, t);
    SearchKeeps(tb, m, past, t, ptr);
    var (r, n) := Search(tb, m, t, ptr);
    if !r.Failed() && !(ptr && r == Weak) {
      CompletedSound(tb, n, past, id);
    }
  }

  lemma {:induction false} PrototypeKeeps(tb: Table, m: Memo, past: seq<nat>, id: nat, ptr: bool)
    requires Fits(tb, m) && Sound(tb, m, past) && id < |tb.types| && tb.types[id].FuncProto? && m.order[id] == NotOrdered
    ensures var res := Search(tb, m, id, ptr); Kept(tb, m, past, res) && Yields(tb, id, ptr, res)
    decreases Unvisited(tb, m), tb.rank[id], 1, |Next(tb.types[id])| + 1
  {
    hide LogOk, Definitions, Search, Unvisited, Sound, SearchMentions;
    PrototypeStep(tb, m, id, ptr);
    MentionsKeep(tb, m, past, id, 0, ptr, false);
  }

  lemma {:induction false} CompositeKeeps(tb: Table, m: Memo, past: seq<nat>, id: nat, ptr: bool)
    requires Fits(tb, m) && Sound(tb, m, past) && id < |tb.types| && tb.types[id].Composite? && m.order[id] == NotOrdered
    requires !(ptr && tb.types[id].named)
    ensures var res := Search(tb, m, id, ptr); Kept(tb, m, past, res) && Yields(tb, id, ptr, res)
    decreases Unvisited(tb, m), tb.rank[id], 1, 0
  {
    hide LogOk, Definitions, Search, Completed, Unvisited, Sound, SearchMembers, Set;
    SetSound(tb, m, past, id);
    CompositeStep(tb, m, id, ptr);
    MembersKeep(tb, Set(m, id, Ordering), past, id, 0);
    var (r, n) := SearchMembers(tb, Set(m, id, Ordering), id, 0);
    EnteredThen(m, id, n, Completed(tb, n, id).1);
    if !r.Failed() {
      CompletedSound(tb, n, past, id);
    }
  }

  /** From a visit that is entered to one that is left. */
  lemma EnteredThen(m: Memo, id: nat, n: Memo, after: Memo)
    requires id < |m.order| && m.order[id] == NotOrdered && Advances(Set(m, id, Ordering), n)
    ensures Advances(m, n) && n.order[id] == Ordering
    ensures Settles(Set(m, id, Ordering), n) && after.order == n.order[id := Ordered] ==> Settles(m, after)
    ensures after.log == n.log + [id] && after.marks == n.marks + [id] && after.order == n.order[id := Ordered] ==> Advances(m, after)
    ensures after.log == n.log && after.marks == n.marks && after.order == n.order ==> Advances(m, after)
  {
  }

  lemma {:induction false} MembersKeep(tb: Table, m: Memo, past: seq<nat>, id: nat, i: nat)
    requires Fits(tb, m) && Sound(tb, m, past) && id < |tb.types| && tb.types[id].Composite? && i <= |tb.types[id].members|
    requires forall j :: 0 <= j < i ==> tb.types[id].members[j] < |tb.types| && Finished(tb.types, tb.rank, tb.types[id].members[j], m.log)
    ensures var res := SearchMembers(tb, m, id, i);
            && Kept(tb, m, past, res)
            && (!res.0.Failed() ==>
                  forall j :: 0 <= j < |tb.types[id].members| ==>
                    tb.types[id].members[j] < |tb.types| && Finished(tb.types, tb.rank, tb.types[id].members[j], res.1.log))
    decreases Unvisited(tb, m), Ceiling(tb.rank), 0, |tb.types[id].members| - i
  {
    hide LogOk, Definitions, Search, SearchMembers, Sound, Unvisited, Finished, Advances, Settles;
    var ms := tb.types[id].members;
    Stays(m);
    if i == |ms| {
      MembersEnd(tb, m, id);
    } else {
      MembersStep(tb, m, id, i);
      SearchKeeps(tb, m, past, ms[i], false);
      var (r, n) := Search(tb, m, ms[i], false);
      if !r.Failed() {
        AdvancesLog(m, n);
        forall j | 0 <= j < i
          ensures Finished(tb.types, tb.rank, ms[j], n.log)
        {
          FinishedGrows(tb.types, tb.rank, ms[j], m.log, n.log);
        }
        MembersKeep(tb, n, past, id, i + 1);
        Onward(m, n, SearchMembers(tb, n, id, i + 1).1);
      }
    }
  }

  lemma Stays(m: Memo)
    ensures Advances(m, m) && Settles(m, m)
  {
  }

  lemma AdvancesLog(m: Memo, n: Memo)
    requires Advances(m, n)
    ensures m.log <= n.log && m.marks <= n.marks && |m.order| == |n.order|
  {
  }

  lemma {:induction false} MentionsKeep(tb: Table, m: Memo, past: seq<nat>, id: nat, i: nat, ptr: bool, strong: bool)
    requires Fits(tb, m) && Sound(tb, m, past) && id < |tb.types| && tb.types[id].FuncProto? && i <= |Next(tb.types[id])|
    ensures Kept(tb, m, past, SearchMentions(tb, m, id, i, ptr, strong))
    decreases Unvisited(tb, m), tb.rank[id], 1, |Next(tb.types[id])| - i
  {
    hide LogOk, Definitions, Search, SearchMentions, Sound, Unvisited, Advances, Settles;
    var ts := Next(tb.types[id]);
    Stays(m);
    if i == |ts| {
      MentionsEnd(tb, m, id, ptr, strong);
    } else {
      MentionsStep(tb, m, id, i, ptr, strong);
      SearchKeeps(tb, m, past, ts[i], ptr);
      var (r, n) := Search(tb, m, ts[i], ptr);
      if !r.Failed() {
        MentionsKeep(tb, n, past, id, i + 1, ptr, strong || r == Strong);
        Onward(m, n, SearchMentions(tb, n, id, i + 1, ptr, strong || r == Strong).1);
      }
    }
  }

  // ----- What a search that succeeds has gone through -----

  /** Everything a successful search leads to has been searched, if everything before was. */
  ghost predicate Clears(tb: Table, id: nat, ptr: bool, res: (Result, Memo))
    requires Fits(tb, res.1) && id < |tb.types|
  {
    !res.0.Failed() ==>
      Searched(tb.types, tb.rank, res.1.marks) && Clear(tb.types, tb.rank, Visit(id, ptr && res.0 != Strong), res.1.marks)
  }

  lemma CompletedMarks(tb: Table, m: Memo, id: nat)
    requires Fits(tb, m) && id < |tb.types|
    ensures var (r, n) := Completed(tb, m, id); r != Loop && r != Invalid && r != Weak && (r == Strong ==> n.marks == m.marks + [id])
  {
  }

  lemma CompletedClears(tb: Table, m: Memo, id: nat, ptr: bool)
    requires Fits(tb, m) && id < |tb.types| && Remembered(tb.types[id])
    requires Searched(tb.types, tb.rank, m.marks) && Through(tb.types, tb.rank, id, m.marks)
    ensures Clears(tb, id, ptr, Completed(tb, m, id))
  {
    hide Completed, Searched, Through, Clear;
    CompletedMarks(tb, m, id);
    SearchedGrows(tb.types, tb.rank, m.marks, id);
    ClearAtOnce(tb.types, tb.rank, Visit(id, false), m.marks + [id]);
  }

  lemma DoneClears(tb: Table, m: Memo, past: seq<nat>, id: nat, ptr: bool)
    requires Fits(tb, m) && Sound(tb, m, past) && id < |tb.types| && Searched(tb.types, tb.rank, m.marks)
    requires m.order[id] != NotOrdered || tb.types[id].Unknown? || (tb.types[id].Composite? && tb.types[id].named && ptr)
    ensures Clears(tb, id, ptr, Search(tb, m, id, ptr))
  {
    hide LogOk, Definitions, Search, Completed, Unvisited, Searched, Clear;
    DoneStep(tb, m, id, ptr);
    if m.order[id] == Ordered {
      ClearAtOnce(tb.types, tb.rank, Visit(id, false), m.marks);
    } else if tb.types[id].Composite? && tb.types[id].named && ptr {
      ClearAtOnce(tb.types, tb.rank, Visit(id, true), m.marks);
    }
  }

  lemma LeafClears(tb: Table, m: Memo, id: nat, ptr: bool)
    requires Fits(tb, m) && id < |tb.types| && m.order[id] == NotOrdered && Searched(tb.types, tb.rank, m.marks)
    requires tb.types[id].Int? || tb.types[id].Ignored? || tb.types[id].Enum?
    ensures Clears(tb, id, ptr, Search(tb, m, id, ptr))
  {
    hide Search, Completed, Unvisited, Searched, Clear, Through;
    DoneStep(tb, m, id, ptr);
    if tb.types[id].Enum? {
      ThroughNothing(tb.types, tb.rank, id, m.marks);
      CompletedClears(tb, m, id, ptr);
    } else {
      ClearAtOnce(tb.types, tb.rank, Visit(id, ptr), m.marks);
    }
  }

  lemma {:induction false} SearchClears(tb: Table, m: Memo, past: seq<nat>, id: nat, ptr: bool)
    requires Fits(tb, m) && Sound(tb, m, past) && id < |tb.types| && Searched(tb.types, tb.rank, m.marks)
    ensures Clears(tb, id, ptr, Search(tb, m, id, ptr))
    decreases Unvisited(tb, m), tb.rank[id], 2, 0
  {
    hide Search, Unvisited, Sound, Clears, Searched;
    if m.order[id] != NotOrdered {
      DoneClears(tb, m, past, id, ptr);
    } else {
      match tb.types[id] {
        case Int => LeafClears(tb, m, id, ptr);
        case Ignored => LeafClears(tb, m, id, ptr);
        case Enum(_) => LeafClears(tb, m, id, ptr);
        case Ptr(t) => PointerClears(tb, m, past, id, ptr, t);
        case Array(t) => PassingClears(tb, m, past, id, ptr, t);
        case Qualifier(t) => PassingClears(tb, m, past, id, ptr, t);
        case Composite(named, _) =>
          if ptr && named {
            DoneClears(tb, m, past, id, ptr);
          } else {
            CompositeClears(tb, m, past, id, ptr);
          }
        case Typedef(t) => TypedefClears(tb, m, past, id, ptr, t);
        case FuncProto(_, _) => PrototypeClears(tb, m, past, id, ptr);
        case Unknown => DoneClears(tb, m, past, id, ptr);
      }
    }
  }

  lemma {:induction false} PointerClears(tb: Table, m: Memo, past: seq<nat>, id: nat, ptr: bool, t: nat)
    requires Fits(tb, m) && Sound(tb, m, past) && id < |tb.types| && tb.types[id] == Ptr(t) && m.order[id] == NotOrdered
    requires Searched(tb.types, tb.rank, m.marks)
    ensures Clears(tb, id, ptr, Search(tb, m, id, ptr))
    decreases Unvisited(tb, m), tb.rank[id], 1, 0
  {
    hide Search, Unvisited, Sound, Searched, Clear, Through;
    PointerStep(tb, m, id, ptr, t);
    SearchClears(tb, m, past, t, true);
    var (r, n) := Search(tb, m, t, true);
    if !r.Failed() {
      ThroughTarget(tb.types, tb.rank, id, n.marks, r == Strong);
      SearchedGrows(tb.types, tb.rank, n.marks, id);
      ClearAtOnce(tb.types, tb.rank, Visit(id, ptr && r != Strong), n.marks + [id]);
    }
  }

  lemma {:induction false} PassingClears(tb: Table, m: Memo, past: seq<nat>, id: nat, ptr: bool, t: nat)
    requires Fits(tb, m) && Sound(tb, m, past) && id < |tb.types| && m.order[id] == NotOrdered
    requires (tb.types[id].Array? || tb.types[id].Qualifier?) && Next(tb.types[id]) == [t] && Searched(tb.types, tb.rank, m.marks)
    ensures Clears(tb, id, ptr, Search(tb, m, id, ptr))
    decreases Unvisited(tb, m), tb.rank[id], 1, 0
  {
    hide Search, Unvisited, Sound, Searched, Clear;
    PassingStep(tb, m, id, ptr, t);
    SearchClears(tb, m, past, t, ptr);
    var (r, n) := Search(tb, m, t, ptr);
    if !r.Failed() {
      ClearPassing(tb.types, tb.rank, Visit(id, ptr && r != Strong), t, n.marks);
    }
  }

  lemma {:induction false} TypedefClears(tb: Table, m: Memo, past: seq<nat>, id: nat, ptr: bool, t: nat)
    requires Fits(tb, m) && Sound(tb, m, past) && id < |tb.types| && tb.types[id] == Typedef(t) && m.order[id] == NotOrdered
    requires Searched(tb.types, tb.rank, m.marks)
    ensures Clears(tb, id, ptr, Search(tb, m, id, ptr))
    decreases Unvisited(tb, m), tb.rank[id], 1, 0
  {
    hide Search, Completed, Unvisited, Sound, Searched, Clear, Through;
    TypedefStep(tb, m, id, ptr, t);
    SearchClears(tb, m, past, t, ptr);
    var (r, n) := Search(tb, m, t, ptr);
    if !r.Failed() {
      if ptr && r == Weak {
        ClearPassing(tb.types, tb.rank, Visit(id, true), t, n.marks);
      } else {
        ThroughTarget(tb.types, tb.rank, id, n.marks, true);
        CompletedClears(tb, n, id, ptr);
      }
    }
  }

  lemma {:induction false} CompositeClears(tb: Table, m: Memo, past: seq<nat>, id: nat, ptr: bool)
    requires Fits(tb, m) && Sound(tb, m, past) && id < |tb.types| && tb.types[id].Composite? && m.order[id] == NotOrdered
    requires !(ptr && tb.types[id].named) && Searched(tb.types, tb.rank, m.marks)
    ensures Clears(tb, id, ptr, Search(tb, m, id, ptr))
    decreases Unvisited(tb, m), tb.rank[id], 1, 0
  {
    hide Search, Completed, Unvisited, Sound, Searched, Clear, Through, SearchMembers, AllClear;
    SetSound(tb, m, past, id);
    CompositeStep(tb, m, id, ptr);
    NoneLeft(tb.types, tb.rank, tb.types[id].members, false, m.marks);
    MembersClear(tb, Set(m, id, Ordering), past, id, 0);
    var (r, n) := SearchMembers(tb, Set(m, id, Ordering), id, 0);
    if !r.Failed() {
      ThroughMembers(tb.types, tb.rank, id, n.marks);
      CompletedClears(tb, n, id, ptr);
    }
  }

  lemma {:induction false} MembersClear(tb: Table, m: Memo, past: seq<nat>, id: nat, i: nat)
    requires Fits(tb, m) && Sound(tb, m, past) && id < |tb.types| && tb.types[id].Composite? && i <= |tb.types[id].members|
    requires Searched(tb.types, tb.rank, m.marks) && AllClear(tb.types, tb.rank, tb.types[id].members, i, false, m.marks)
    ensures var (r, n) := SearchMembers(tb, m, id, i);
            !r.Failed() ==>
              Searched(tb.types, tb.rank, n.marks) && AllClear(tb.types, tb.rank, tb.types[id].members, |tb.types[id].members|, false, n.marks)
    decreases Unvisited(tb, m), Ceiling(tb.rank), 0, |tb.types[id].members| - i
  {
    hide Search, Unvisited, Sound, Searched, Clear, SearchMembers, AllClear, Settles, Finished;
    var ms := tb.types[id].members;
    if i == |ms| {
      MembersEnd(tb, m, id);
    } else {
      MembersStep(tb, m, id, i);
      SearchKeeps(tb, m, past, ms[i], false);
      SearchClears(tb, m, past, ms[i], false);
      var (r, n) := Search(tb, m, ms[i], false);
      if !r.Failed() {
        AllClearGrows(tb.types, tb.rank, ms, i, false, m.marks, n.marks, false);
        MembersClear(tb, n, past, id, i + 1);
      }
    }
  }

  lemma {:induction false} PrototypeClears(tb: Table, m: Memo, past: seq<nat>, id: nat, ptr: bool)
    requires Fits(tb, m) && Sound(tb, m, past) && id < |tb.types| && tb.types[id].FuncProto? && m.order[id] == NotOrdered
    requires Searched(tb.types, tb.rank, m.marks)
    ensures Clears(tb, id, ptr, Search(tb, m, id, ptr))
    decreases Unvisited(tb, m), tb.rank[id], 1, |Next(tb.types[id])| + 1
  {
    hide Search, Unvisited, Sound, Searched, Clear, SearchMentions, AllClear;
    PrototypeStep(tb, m, id, ptr);
    NoneLeft(tb.types, tb.rank, Next(tb.types[id]), true, m.marks);
    MentionsClear(tb, m, past, id, 0, ptr, false);
    var (r, n) := SearchMentions(tb, m, id, 0, ptr, false);
    if !r.Failed() {
      ClearPrototype(tb.types, tb.rank, id, ptr && r != Strong, Next(tb.types[id]), n.marks);
    }
  }

  lemma {:induction false} MentionsClear(tb: Table, m: Memo, past: seq<nat>, id: nat, i: nat, ptr: bool, strong: bool)
    requires Fits(tb, m) && Sound(tb, m, past) && id < |tb.types| && tb.types[id].FuncProto? && i <= |Next(tb.types[id])|
    requires Searched(tb.types, tb.rank, m.marks) && AllClear(tb.types, tb.rank, Next(tb.types[id]), i, true, m.marks)
    ensures var (r, n) := SearchMentions(tb, m, id, i, ptr, strong);
            !r.Failed() ==>
              Searched(tb.types, tb.rank, n.marks) && AllClear(tb.types, tb.rank, Next(tb.types[id]), |Next(tb.types[id])|, true, n.marks)
    decreases Unvisited(tb, m), tb.rank[id], 1, |Next(tb.types[id])| - i
  {
    hide Search, Unvisited, Sound, Searched, Clear, SearchMentions, AllClear, Settles, Finished;
    var ts := Next(tb.types[id]);
    if i == |ts| {
      MentionsEnd(tb, m, id, ptr, strong);
    } else {
      MentionsStep(tb, m, id, i, ptr, strong);
      SearchKeeps(tb, m, past, ts[i], ptr);
      SearchClears(tb, m, past, ts[i], ptr);
      var (r, n) := Search(tb, m, ts[i], ptr);
      if !r.Failed() {
        AllClearGrows(tb.types, tb.rank, ts, i, true, m.marks, n.marks, ptr && r != Strong);
        MentionsClear(tb, n, past, id, i + 1, ptr, strong || r == Strong);
      }
    }
  }

  // ----- Why a search refuses -----

  /** The visits have passed every struct or union being visited. */
  ghost predicate Covers(m: Memo, w: seq<Visit>) {
    forall i :: 0 <= i < |m.order| && m.order[i] == Ordering ==> Passes(w, i)
  }

  /** The trail ends at a visit, and has covered the rest before. */
  ghost predicate Arrives(tb: Table, m: Memo, trail: seq<Visit>, v: Visit) {
    Trail(tb.types, trail, false) && trail[|trail| - 1] == v && Covers(m, trail[..|trail| - 1])
  }

  /** Since `m` at most one more type is being visited. */
  ghost predicate Inside(m: Memo, n: Memo, id: nat) {
    |n.order| == |m.order| && forall i :: 0 <= i < |n.order| && n.order[i] == Ordering ==> m.order[i] == Ordering || i == id
  }

  lemma InsideNext(m: Memo, n: Memo, next: Memo, id: nat)
    requires Inside(m, n, id) && Settles(n, next)
    ensures Inside(m, next, id)
  {
  }

  lemma Entered(m: Memo, id: nat)
    requires id < |m.order|
    ensures Inside(m, m, id) && Inside(m, Set(m, id, Ordering), id)
  {
  }

  /** From a visit the trail goes on; the type visited may be being visited itself. */
  lemma GoesOn(tb: Table, m: Memo, n: Memo, trail: seq<Visit>, v: Visit, next: Visit)
    requires Arrives(tb, m, trail, v) && next.id < |tb.types| && Leads(tb.types, v, next, false) && Inside(m, n, v.id)
    ensures Arrives(tb, n, trail + [next], next) && (trail + [next])[0] == trail[0]
  {
    hide Leads;
    TrailGrows(tb.types, trail, next, false);
    var more := trail + [next];
    assert more[..|more| - 1] == trail;
    forall i | 0 <= i < |n.order| && n.order[i] == Ordering
      ensures Passes(trail, i)
    {
      if i == v.id {
        assert trail[|trail| - 1].id == i;
      } else {
        var front := trail[..|trail| - 1];
        assert Passes(front, i);
        var j :| 0 <= j < |front| && front[j].id == i;
        assert trail[j].id == i;
      }
    }
  }

  lemma LeadsToMember(types: seq<Kind>, v: Visit, i: nat)
    requires v.id < |types| && types[v.id].Composite? && i < |types[v.id].members| && !(v.behind && types[v.id].named)
    ensures Leads(types, v, Visit(types[v.id].members[i], false), false)
  {
  }

  lemma LeadsToMention(types: seq<Kind>, v: Visit, i: nat)
    requires v.id < |types| && types[v.id].FuncProto? && i < |Next(types[v.id])|
    ensures Leads(types, v, Visit(Next(types[v.id])[i], v.behind), false)
  {
  }

  lemma {:induction false} SearchExplained(tb: Table, m: Memo, past: seq<nat>, id: nat, ptr: bool, trail: seq<Visit>) returns (why: seq<Visit>)
    requires Fits(tb, m) && Sound(tb, m, past) && id < |tb.types| && Arrives(tb, m, trail, Visit(id, ptr))
    requires Search(tb, m, id, ptr).0.Refused()
    ensures Explains(tb.types, why, trail[0], Search(tb, m, id, ptr).0, false)
    decreases Unvisited(tb, m), tb.rank[id], 2, 0
  {
    hide Search, Completed, Unvisited, LogOk, Definitions, Inside;
    DoneStep(tb, m, id, ptr);
    Entered(m, id);
    if m.order[id] != NotOrdered {
      why := trail;
    } else {
      match tb.types[id] {
        case Ptr(t) =>
          PointerStep(tb, m, id, ptr, t);
          GoesOn(tb, m, m, trail, Visit(id, ptr), Visit(t, true));
          why := SearchExplained(tb, m, past, t, true, trail + [Visit(t, true)]);
        case Array(t) =>
          PassingStep(tb, m, id, ptr, t);
          GoesOn(tb, m, m, trail, Visit(id, ptr), Visit(t, ptr));
          why := SearchExplained(tb, m, past, t, ptr, trail + [Visit(t, ptr)]);
        case Qualifier(t) =>
          PassingStep(tb, m, id, ptr, t);
          GoesOn(tb, m, m, trail, Visit(id, ptr), Visit(t, ptr));
          why := SearchExplained(tb, m, past, t, ptr, trail + [Visit(t, ptr)]);
        case Typedef(t) =>
          TypedefStep(tb, m, id, ptr, t);
          CompletedMarks(tb, Search(tb, m, t, ptr).1, id);
          GoesOn(tb, m, m, trail, Visit(id, ptr), Visit(t, ptr));
          why := SearchExplained(tb, m, past, t, ptr, trail + [Visit(t, ptr)]);
        case Composite(_, _) =>
          SetSound(tb, m, past, id);
          CompositeStep(tb, m, id, ptr);
          CompletedMarks(tb, SearchMembers(tb, Set(m, id, Ordering), id, 0).1, id);
          why := MembersExplained(tb, m, Set(m, id, Ordering), past, id, 0, ptr, trail);
        case FuncProto(_, _) =>
          PrototypeStep(tb, m, id, ptr);
          why := MentionsExplained(tb, m, m, past, id, 0, ptr, false, trail);
        case Unknown =>
          why := trail;
        case Enum(_) =>
          CompletedMarks(tb, m, id);
          assert false;
        case _ =>
          assert false;
      }
    }
  }

  /** `m` is the state in which the struct or union was met. */
  lemma {:induction false} MembersExplained(tb: Table, m: Memo, n: Memo, past: seq<nat>, id: nat, i: nat, ptr: bool, trail: seq<Visit>)
      returns (why: seq<Visit>)
    requires Fits(tb, n) && Sound(tb, n, past) && id < |tb.types| && tb.types[id].Composite? && i <= |tb.types[id].members|
    requires !(ptr && tb.types[id].named) && Arrives(tb, m, trail, Visit(id, ptr)) && Inside(m, n, id)
    requires SearchMembers(tb, n, id, i).0.Refused()
    ensures Explains(tb.types, why, trail[0], SearchMembers(tb, n, id, i).0, false)
    decreases Unvisited(tb, n), Ceiling(tb.rank), 0, |tb.types[id].members| - i
  {
    hide Search, SearchMembers, Unvisited, Sound, Finished, Explains, Inside, Arrives, Advances, Settles, Closed, Leads;
    var ms := tb.types[id].members;
    if i == |ms| {
      MembersEnd(tb, n, id);
      assert false;
    } else {
      MembersStep(tb, n, id, i);
      var (r, next) := Search(tb, n, ms[i], false);
      if r.Failed() {
        LeadsToMember(tb.types, Visit(id, ptr), i);
        GoesOn(tb, m, n, trail, Visit(id, ptr), Visit(ms[i], false));
        why := SearchExplained(tb, n, past, ms[i], false, trail + [Visit(ms[i], false)]);
      } else {
        SearchKeeps(tb, n, past, ms[i], false);
        InsideNext(m, n, next, id);
        why := MembersExplained(tb, m, next, past, id, i + 1, ptr, trail);
      }
    }
  }

  lemma {:induction false} MentionsExplained(tb: Table, m: Memo, n: Memo, past: seq<nat>, id: nat, i: nat, ptr: bool, strong: bool, trail: seq<Visit>)
      returns (why: seq<Visit>)
    requires Fits(tb, n) && Sound(tb, n, past) && id < |tb.types| && tb.types[id].FuncProto? && i <= |Next(tb.types[id])|
    requires Arrives(tb, m, trail, Visit(id, ptr)) && Inside(m, n, id)
    requires SearchMentions(tb, n, id, i, ptr, strong).0.Refused()
    ensures Explains(tb.types, why, trail[0], SearchMentions(tb, n, id, i, ptr, strong).0, false)
    decreases Unvisited(tb, n), tb.rank[id], 1, |Next(tb.types[id])| - i
  {
    hide Search, SearchMentions, Unvisited, Sound, Finished, Explains, Inside, Arrives, Advances, Settles, Closed, Leads;
    var ts := Next(tb.types[id]);
    if i == |ts| {
      MentionsEnd(tb, n, id, ptr, strong);
      assert false;
    } else {
      MentionsStep(tb, n, id, i, ptr, strong);
      var (r, next) := Search(tb, n, ts[i], ptr);
      if r.Failed() {
        LeadsToMention(tb.types, Visit(id, ptr), i);
        GoesOn(tb, m, n, trail, Visit(id, ptr), Visit(ts[i], ptr));
        why := SearchExplained(tb, n, past, ts[i], ptr, trail + [Visit(ts[i], ptr)]);
      } else {
        SearchKeeps(tb, n, past, ts[i], ptr);
        InsideNext(m, n, next, id);
        why := MentionsExplained(tb, m, next, past, id, i + 1, ptr, strong || r == Strong, trail);
      }
    }
  }

  // ----- Requests -----

  /** The dumper as it is made: VOID counts as ordered. */
  ghost function Fresh(types: seq<Kind>): Memo {
    Memo(seq(|types|, i => if i == 0 then Ordered else NotOrdered), [], 0, 0, [], [])
  }

  lemma FreshSound(tb: Table)
    requires Fit(tb)
    ensures Fits(tb, Fresh(tb.types)) && Sound(tb, Fresh(tb.types), []) && Searched(tb.types, tb.rank, [])
  {
  }

  /** A request starts with an empty queue. */
  lemma Restarted(tb: Table, m: Memo, past: seq<nat>)
    requires Fits(tb, m) && Sound(tb, m, past)
    ensures Sound(tb, m.(queue := []), past + m.queue)
  {
    hide LogOk, Definitions;
    assert past + m.queue + [] == past + m.queue;
  }

  lemma Begun(tb: Table, m: Memo, id: nat)
    requires id < |tb.types| && forall i :: 0 <= i < |m.order| ==> m.order[i] != Ordering
    ensures Arrives(tb, m, [Visit(id, false)], Visit(id, false))
  {
  }

  lemma NothingOpen(m: Memo, n: Memo)
    requires Settles(m, n)
    ensures (forall i :: 0 <= i < |m.order| ==> m.order[i] != Ordering) ==> forall i :: 0 <= i < |n.order| ==> n.order[i] != Ordering
  {
  }
}
