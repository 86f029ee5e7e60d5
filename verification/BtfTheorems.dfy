/** What the ordering of type definitions guarantees to a C compiler reading the output
    (lib/libbpf/src/btf_dump.c, the comment before btf_dump_order_type). */
module BtfTheorems {
  import opened BtfGraph
  import opened BtfSearch
  import opened BtfSpec
  import opened BtfReach
  import opened BtfOrder

  /** A chain of embeddings: each type has to be complete before the one before it can be. */
  ghost predicate EmbeddingPath(types: seq<Kind>, p: seq<nat>) {
    && |p| > 0 && (forall i :: 0 <= i < |p| ==> p[i] < |types|)
    && (forall i :: 0 <= i < |p| - 1 ==> p[i + 1] in Embeds(types[p[i]]))
  }

  // ----- When each type became complete -----

  lemma FirstBefore(log: seq<nat>, id: nat, p: nat)
    requires p <= |log| && id in log[..p]
    ensures id in log && First(log, id) < p
  {
    var i :| 0 <= i < p && log[i] == id;
    var f := First(log, id);
    assert forall j :: 0 <= j < f ==> log[..f][j] == log[j];
  }

  /** One more than the position at which the definition inside a type was first finished; 0 when
      there is none. */
  ghost function Time(types: seq<Kind>, rank: seq<nat>, id: nat, log: seq<nat>): nat
    requires Ranked(types, rank) && id < |types|
    decreases rank[id]
  {
    match types[id]
    case Array(t) => Falls(types, rank, id, t); Time(types, rank, t, log)
    case Qualifier(t) => Falls(types, rank, id, t); Time(types, rank, t, log)
    case k => if Defines(k) && id in log then First(log, id) + 1 else 0
  }

  lemma {:induction false} FinishedInTime(types: seq<Kind>, rank: seq<nat>, id: nat, log: seq<nat>, p: nat)
    requires Ranked(types, rank) && id < |types| && p <= |log| && Finished(types, rank, id, log[..p])
    ensures Time(types, rank, id, log) <= p
    decreases rank[id]
  {
    match types[id]
    case Array(t) => Falls(types, rank, id, t); FinishedInTime(types, rank, t, log, p);
    case Qualifier(t) => Falls(types, rank, id, t); FinishedInTime(types, rank, t, log, p);
    case k =>
      if Defines(k) {
        FirstBefore(log, id, p);
      }
  }

  /** Time, and then rank, falls along every embedding out of a finished type. */
  ghost predicate Earlier(types: seq<Kind>, rank: seq<nat>, log: seq<nat>, y: nat, x: nat)
    requires Ranked(types, rank) && x < |types| && y < |types|
  {
    var s, t := Time(types, rank, y, log), Time(types, rank, x, log);
    s < t || (s == t && rank[y] < rank[x])
  }

  lemma EmbeddingFalls(types: seq<Kind>, rank: seq<nat>, log: seq<nat>, x: nat, y: nat)
    requires Ranked(types, rank) && Closed(types) && LogOk(types, rank, log)
    requires x < |types| && Finished(types, rank, x, log) && y in Embeds(types[x])
    ensures y < |types| && Finished(types, rank, y, log) && Earlier(types, rank, log, y, x)
  {
    if types[x].Array? || types[x].Qualifier? {
      Falls(types, rank, x, y);
    } else {
      var p := First(log, x);
      assert InOrder(types, rank, log, p);
      FinishedInTime(types, rank, y, log, p);
      assert log[..p] <= log;
      FinishedGrows(types, rank, y, log[..p], log);
    }
  }

  lemma {:induction false} PathFalls(types: seq<Kind>, rank: seq<nat>, log: seq<nat>, p: seq<nat>, i: nat, j: nat)
    requires Ranked(types, rank) && Closed(types) && LogOk(types, rank, log)
    requires EmbeddingPath(types, p) && Finished(types, rank, p[0], log) && i <= j < |p|
    ensures Finished(types, rank, p[j], log)
    ensures i < j ==> Earlier(types, rank, log, p[j], p[i])
    decreases j
  {
    hide Finished, Embeds, LogOk, Time;
    if j > 0 {
      PathFalls(types, rank, log, p, if i < j then i else i - 1, j - 1);
      EmbeddingFalls(types, rank, log, p[j - 1], p[j]);
    }
  }

  /** No embedding cycle can be reached from a type that has been ordered. */
  lemma NoEmbeddingCycle(types: seq<Kind>, rank: seq<nat>, log: seq<nat>, p: seq<nat>)
    requires Ranked(types, rank) && Closed(types) && LogOk(types, rank, log)
    requires EmbeddingPath(types, p) && Finished(types, rank, p[0], log)
    ensures forall i, j :: 0 <= i < j < |p| ==> p[i] != p[j]
  {
    hide Finished, LogOk, Time;
    forall i, j | 0 <= i < j < |p|
      ensures p[i] != p[j]
    {
      PathFalls(types, rank, log, p, i, j);
    }
  }

  // ----- What is on the queue, and in which order -----

  lemma {:induction false} DefinitionsMembers(types: seq<Kind>, referenced: seq<bool>, log: seq<nat>)
    requires |referenced| == |types|
    ensures forall x :: x in Definitions(types, referenced, log) <==> x in log && x < |types| && Queued(types[x], referenced[x])
  {
    hide Queued;
    if log != [] {
      var front, id := log[..|log| - 1], log[|log| - 1];
      DefinitionsMembers(types, referenced, front);
      assert log == front + [id];
    }
  }

  lemma DefinitionsEmpty(types: seq<Kind>, referenced: seq<bool>)
    requires |referenced| == |types|
    ensures Definitions(types, referenced, []) == []
  {
  }

  /** The queue of a longer log continues the queue of a shorter one. */
  lemma {:induction false} DefinitionsSplit(types: seq<Kind>, referenced: seq<bool>, log: seq<nat>, k: nat)
    requires |referenced| == |types| && k <= |log|
    ensures Definitions(types, referenced, log) == Definitions(types, referenced, log[..k]) + Definitions(types, referenced, log[k..])
  {
    hide Definitions, Queued;
    if k == |log| {
      assert log[..k] == log && log[k..] == [];
      DefinitionsEmpty(types, referenced);
    } else {
      var front, id := log[..|log| - 1], log[|log| - 1];
      DefinitionsSplit(types, referenced, front, k);
      assert front[..k] == log[..k] && log[k..] == front[k..] + [id] && log == front + [id];
      DefinitionsGrow(types, referenced, front, id);
      DefinitionsGrow(types, referenced, front[k..], id);
    }
  }

  lemma {:induction false} LogPrefix(types: seq<Kind>, rank: seq<nat>, log: seq<nat>, k: nat)
    requires Ranked(types, rank) && Closed(types) && LogOk(types, rank, log) && k <= |log|
    ensures LogOk(types, rank, log[..k])
  {
    hide Finished, Embeds;
    forall p | 0 <= p < k
      ensures InOrder(types, rank, log[..k], p)
    {
      assert InOrder(types, rank, log, p);
      assert log[..k][..p] == log[..p];
    }
  }

  /** Only a typedef can be queued twice. */
  lemma {:induction false} QueuedOnce(types: seq<Kind>, rank: seq<nat>, referenced: seq<bool>, log: seq<nat>)
    requires Ranked(types, rank) && Closed(types) && LogOk(types, rank, log) && |referenced| == |types|
    ensures var d := Definitions(types, referenced, log);
            forall i, j :: 0 <= i < j < |d| && d[i] == d[j] ==> d[i] < |types| && types[d[i]].Typedef?
  {
    hide Queued, Definitions, Finished, Embeds;
    if log == [] {
      DefinitionsEmpty(types, referenced);
    } else {
      var front, id := log[..|log| - 1], log[|log| - 1];
      LogPrefix(types, rank, log, |log| - 1);
      QueuedOnce(types, rank, referenced, front);
      DefinitionsMembers(types, referenced, front);
      assert log == front + [id];
      DefinitionsGrow(types, referenced, front, id);
      assert InOrder(types, rank, log, |log| - 1);
      assert forall p :: 0 <= p < |front| && log[p] == id ==> types[id].Typedef?;
    }
  }

  /** A chain of embeddings from a struct or union to a definition of its own. */
  ghost predicate EmbeddedDefinition(types: seq<Kind>, referenced: seq<bool>, p: seq<nat>)
    requires |referenced| == |types|
  {
    EmbeddingPath(types, p) && |p| > 1 && types[p[0]].Composite? && Queued(types[p[|p| - 1]], referenced[p[|p| - 1]])
  }

  /** When a struct or union is queued, every definition it embeds, through any chain of arrays,
      qualifiers, typedefs and structs, has been queued before it. */
  lemma EmbeddedQueuedBefore(types: seq<Kind>, rank: seq<nat>, referenced: seq<bool>, log: seq<nat>, p: seq<nat>, q: nat)
    requires Ranked(types, rank) && Closed(types) && LogOk(types, rank, log) && |referenced| == |types|
    requires EmbeddedDefinition(types, referenced, p)
    requires q < |Definitions(types, referenced, log)| && Definitions(types, referenced, log)[q] == p[0]
    ensures p[|p| - 1] in Definitions(types, referenced, log)[..q]
  {
    hide Embeds, Definitions, Time;
    var s, x := p[0], p[|p| - 1];
    DefinitionsMembers(types, referenced, log);
    var k := First(log, s);
    assert InOrder(types, rank, log, k);
    // everything embedded in s was finished in log[..k]
    LogPrefix(types, rank, log, k);
    var rest := p[1..];
    assert EmbeddingPath(types, rest) && Finished(types, rank, rest[0], log[..k]);
    PathFalls(types, rank, log[..k], rest, 0, |rest| - 1);
    assert x in log[..k];
    // s itself is queued exactly there
    QueuePosition(types, rank, referenced, log, s, k, q);
    DefinitionsMembers(types, referenced, log[..k]);
  }

  lemma QueuePosition(types: seq<Kind>, rank: seq<nat>, referenced: seq<bool>, log: seq<nat>, s: nat, k: nat, q: nat)
    requires Ranked(types, rank) && Closed(types) && LogOk(types, rank, log) && |referenced| == |types|
    requires k < |log| && log[k] == s < |types| && types[s].Composite?
    requires q < |Definitions(types, referenced, log)| && Definitions(types, referenced, log)[q] == s
    ensures Definitions(types, referenced, log)[..q] == Definitions(types, referenced, log[..k])
  {
    hide Finished, Embeds, InOrder, Definitions;
    DefinitionsSplit(types, referenced, log, k);
    DefinitionsSplit(types, referenced, log, k + 1);
    DefinitionsGrow(types, referenced, log[..k], s);
    assert log[..k + 1] == log[..k] + [s];
    var d, front, back := Definitions(types, referenced, log), Definitions(types, referenced, log[..k]), Definitions(types, referenced, log[k + 1..]);
    DefinitionsMembers(types, referenced, log);
    assert d[q] in d;
    DefinitionsMembers(types, referenced, log[..k]);
    DefinitionsMembers(types, referenced, log[k + 1..]);
    assert s !in log[..k] && s !in log[k + 1..];
    assert d == front + [s] + back;
    assert forall i :: 0 <= i < |front| ==> front[i] in front;
    assert forall i :: 0 <= i < |back| ==> back[i] in back;
  }

  /** Everything that an ordered type embeds is on the queue. */
  lemma EmbeddedAllQueued(types: seq<Kind>, rank: seq<nat>, referenced: seq<bool>, log: seq<nat>, p: seq<nat>)
    requires Ranked(types, rank) && Closed(types) && LogOk(types, rank, log) && |referenced| == |types|
    requires EmbeddingPath(types, p) && Finished(types, rank, p[0], log) && Queued(types[p[|p| - 1]], referenced[p[|p| - 1]])
    ensures p[|p| - 1] in Definitions(types, referenced, log)
  {
    hide Embeds, Definitions, Time, LogOk;
    PathFalls(types, rank, log, p, 0, |p| - 1);
    DefinitionsMembers(types, referenced, log);
  }

  // ----- Definitions needed through pointers as well -----

  /** A firm trail from a type to a definition that it arrives at not behind a pointer: a chain of
      embeddings, which may lead through a pointer or a prototype to a struct without a name. The
      first type cannot be defined before the last. Enumerations and forward declarations are wanted
      behind a pointer as well. */
  ghost predicate Needs(types: seq<Kind>, referenced: seq<bool>, w: seq<Visit>)
    requires |referenced| == |types|
  {
    && Trail(types, w, true) && !w[0].behind
    && var last := w[|w| - 1];
       && (!last.behind || types[last.id].Enum?)
       && match types[last.id]
          case Composite(named, _) => named
          case Enum(named) => named || !referenced[last.id]
          case Typedef(_) => true
          case _ => false
  }

  /** The definitions of its own that a searched type needs are the top-level ones. */
  lemma NeedsQueued(types: seq<Kind>, referenced: seq<bool>, w: seq<Visit>)
    requires |referenced| == |types| && Needs(types, referenced, w)
    ensures var last := w[|w| - 1]; last.id < |types| && (!last.behind || types[last.id].Enum?) && Queued(types[last.id], referenced[last.id])
  {
  }

  lemma ClearDefinition(types: seq<Kind>, rank: seq<nat>, referenced: seq<bool>, v: Visit, marks: seq<nat>)
    requires Ranked(types, rank) && |referenced| == |types| > 0 && types[0] == Unknown && v.id < |types|
    requires Clear(types, rank, v, marks) && (!v.behind || types[v.id].Enum?) && Queued(types[v.id], referenced[v.id])
    ensures v.id in marks
  {
  }

  /** When a definition is queued, every definition it needs has been queued before it. */
  lemma NeededQueuedBefore(types: seq<Kind>, rank: seq<nat>, referenced: seq<bool>, marks: seq<nat>, w: seq<Visit>, q: nat)
    requires Ranked(types, rank) && |referenced| == |types| > 0 && types[0] == Unknown && Searched(types, rank, marks)
    requires Needs(types, referenced, w) && |w| > 1
    requires q < |Definitions(types, referenced, marks)| && Definitions(types, referenced, marks)[q] == w[0].id
    ensures w[|w| - 1].id in Definitions(types, referenced, marks)[..q]
  {
    hide Searched, Clear, Definitions, Queued, Leads;
    NeedsQueued(types, referenced, w);
    var s, x, d := w[0].id, w[|w| - 1], Definitions(types, referenced, marks);
    DefinitionsMembers(types, referenced, marks);
    assert d[q] in d;
    var p := First(marks, s);
    MarkedStep(types, rank, marks, p, w[0], w[1]);
    ClearTrail(types, rank, marks, p, w, 1, |w| - 1);
    ClearDefinition(types, rank, referenced, x, marks[..p]);
    DefinitionsMembers(types, referenced, marks[..p]);
    DefinitionsSplit(types, referenced, marks, p);
    var front := Definitions(types, referenced, marks[..p]);
    assert d[..|front|] == front;
    assert s !in front && forall i :: 0 <= i < |front| ==> d[i] == front[i] && front[i] in front;
    assert d[..q][..|front|] == front;
  }

  /** Everything that a type searched needs is on the queue. */
  lemma NeededAllQueued(types: seq<Kind>, rank: seq<nat>, referenced: seq<bool>, marks: seq<nat>, w: seq<Visit>)
    requires Ranked(types, rank) && |referenced| == |types| > 0 && types[0] == Unknown && Searched(types, rank, marks)
    requires Needs(types, referenced, w) && Clear(types, rank, w[0], marks)
    ensures w[|w| - 1].id in Definitions(types, referenced, marks)
  {
    hide Searched, Clear, Definitions, Queued, Leads;
    NeedsQueued(types, referenced, w);
    assert marks[..|marks|] == marks;
    ClearTrail(types, rank, marks, |marks|, w, 0, |w| - 1);
    ClearDefinition(types, rank, referenced, w[|w| - 1], marks);
    DefinitionsMembers(types, referenced, marks);
  }

  /** A chain of embeddings is such a trail. */
  lemma EmbeddingIsTrail(types: seq<Kind>, p: seq<nat>)
    requires EmbeddingPath(types, p)
    ensures Trail(types, seq(|p|, i requires 0 <= i < |p| => Visit(p[i], false)), true)
  {
    var w := seq(|p|, i requires 0 <= i < |p| => Visit(p[i], false));
    forall i | 0 <= i < |w| - 1
      ensures Leads(types, w[i], w[i + 1], true)
    {
      assert p[i + 1] in Embeds(types[p[i]]);
    }
  }

  /** And a firm trail none of whose visits is behind a pointer is a chain of embeddings. */
  lemma TrailIsEmbedding(types: seq<Kind>, w: seq<Visit>)
    requires Trail(types, w, true) && forall i :: 0 <= i < |w| ==> !w[i].behind
    ensures EmbeddingPath(types, seq(|w|, i requires 0 <= i < |w| => w[i].id))
  {
    var p := seq(|w|, i requires 0 <= i < |w| => w[i].id);
    forall i | 0 <= i < |p| - 1
      ensures p[i + 1] in Embeds(types[p[i]])
    {
      assert Leads(types, w[i], w[i + 1], true);
    }
  }

  // ----- Whole sessions -----

  /** Each definition of the output comes after every definition it needs. */
  ghost predicate WellOrdered(types: seq<Kind>, referenced: seq<bool>, output: seq<nat>)
    requires |referenced| == |types|
  {
    forall w: seq<Visit>, q :: Needs(types, referenced, w) && |w| > 1 && 0 <= q < |output| && output[q] == w[0].id ==>
      w[|w| - 1].id in output[..q]
  }

  /** Nothing but a typedef comes twice. */
  ghost predicate NoRepeats(types: seq<Kind>, output: seq<nat>) {
    forall i, j :: 0 <= i < j < |output| && output[i] == output[j] ==> output[i] < |types| && types[output[i]].Typedef?
  }

  /** What success says of a requested type: its embeddings have no cycle, and every definition it
      needs is in the output. */
  ghost predicate Served(types: seq<Kind>, referenced: seq<bool>, output: seq<nat>, id: nat)
    requires |referenced| == |types|
  {
    && (forall p :: EmbeddingPath(types, p) && p[0] == id ==> forall i, j :: 0 <= i < j < |p| ==> p[i] != p[j])
    && (forall w: seq<Visit> :: Needs(types, referenced, w) && w[0].id == id ==> w[|w| - 1].id in output)
  }

  lemma SearchIsWellOrdered(types: seq<Kind>, rank: seq<nat>, referenced: seq<bool>, marks: seq<nat>)
    requires Ranked(types, rank) && |referenced| == |types| > 0 && types[0] == Unknown && Searched(types, rank, marks)
    ensures WellOrdered(types, referenced, Definitions(types, referenced, marks))
  {
    hide Definitions, Searched, Needs;
    var d := Definitions(types, referenced, marks);
    forall w: seq<Visit>, q | Needs(types, referenced, w) && |w| > 1 && 0 <= q < |d| && d[q] == w[0].id
      ensures w[|w| - 1].id in d[..q]
    {
      NeededQueuedBefore(types, rank, referenced, marks, w, q);
    }
  }

  lemma ClearIsServed(types: seq<Kind>, rank: seq<nat>, referenced: seq<bool>, log: seq<nat>, marks: seq<nat>, id: nat)
    requires Ranked(types, rank) && Closed(types) && LogOk(types, rank, log) && |referenced| == |types| > 0 && types[0] == Unknown
    requires Searched(types, rank, marks) && id < |types| && Finished(types, rank, id, log) && Clear(types, rank, Visit(id, false), marks)
    ensures Served(types, referenced, Definitions(types, referenced, marks), id)
  {
    hide Definitions, LogOk, Finished, Searched, Clear, Leads, Queued;
    forall p | EmbeddingPath(types, p) && p[0] == id
      ensures forall i, j :: 0 <= i < j < |p| ==> p[i] != p[j]
    {
      NoEmbeddingCycle(types, rank, log, p);
    }
    forall w: seq<Visit> | Needs(types, referenced, w) && w[0].id == id
      ensures w[|w| - 1].id in Definitions(types, referenced, marks)
    {
      NeedsBegins(types, referenced, w);
      NeededAllQueued(types, rank, referenced, marks, w);
    }
  }

  lemma NeedsBegins(types: seq<Kind>, referenced: seq<bool>, w: seq<Visit>)
    requires |referenced| == |types| && Needs(types, referenced, w)
    ensures |w| > 0 && w[0] == Visit(w[0].id, false)
  {
  }

  /** A requested type with a definition of its own is in the output. */
  lemma RequestedIsDefined(types: seq<Kind>, referenced: seq<bool>, output: seq<nat>, id: nat)
    requires |referenced| == |types| && id < |types| && Served(types, referenced, output, id)
    ensures types[id].Composite? && types[id].named ==> id in output
    ensures types[id].Typedef? ==> id in output
    ensures types[id].Enum? && (types[id].named || !referenced[id]) ==> id in output
  {
    var w := [Visit(id, false)];
    assert Trail(types, w, true);
    assert Needs(types, referenced, w) ==> w[|w| - 1].id in output;
  }

  /** Nothing else ever is. */
  lemma OnlyDefinitions(types: seq<Kind>, referenced: seq<bool>, log: seq<nat>)
    requires |referenced| == |types|
    ensures forall x :: x in Definitions(types, referenced, log) ==>
              && x < |types|
              && ((types[x].Composite? && types[x].named) || types[x].Typedef? || (types[x].Enum? && (types[x].named || !referenced[x])))
  {
    hide Definitions;
    DefinitionsMembers(types, referenced, log);
  }

  // ----- Which requests are refused -----

  /** Some trail from a requested type is a reason to refuse it. */
  ghost predicate Refusable(types: seq<Kind>, id: nat, firm: bool) {
    exists w, r: Result :: r.Refused() && Explains(types, w, Visit(id, false), r, firm)
  }

  /** A failure is not without reason: memory did run out, there is no such type, or a trail from the
      requested type runs into the failure. */
  ghost predicate Justified(types: seq<Kind>, memory: nat -> bool, id: nat, r: Result) {
    if r == NoMemory then exists n :: !memory(n) else id >= |types| || Refusable(types, id, false)
  }

  lemma ClearIsNotRefusable(types: seq<Kind>, rank: seq<nat>, marks: seq<nat>, id: nat)
    requires Ranked(types, rank) && |types| > 0 && types[0] == Unknown && Searched(types, rank, marks)
    requires id < |types| && Clear(types, rank, Visit(id, false), marks)
    ensures !Refusable(types, id, true)
  {
    hide Searched, Clear;
    forall w, r: Result | r.Refused()
      ensures !Explains(types, w, Visit(id, false), r, true)
    {
      if |w| > 0 && w[0] == Visit(id, false) {
        ClearHasNoReason(types, rank, marks, w, r);
      }
    }
  }

  /** Where the requests are sheltered, none of them has a reason to be refused if none has a firm one. */
  lemma FirmReasonsSuffice(types: seq<Kind>, ids: seq<nat>, i: nat)
    requires i < |ids| && Sheltered(types, Visit(ids[i], false), Requested(ids)) && Refusable(types, ids[i], false)
    ensures exists j :: 0 <= j < |ids| && Refusable(types, ids[j], true)
  {
    hide Explains, Sheltered;
    var w, r: Result :| r.Refused() && Explains(types, w, Visit(ids[i], false), r, false);
    var v, root := ReasonMoves(types, w, Visit(ids[i], false), r, Requested(ids));
    assert Explains(types, v, Visit(root.id, false), r, true);
    assert Refusable(types, root.id, true);
    if root.id != ids[i] {
      var j :| 0 <= j < |ids| && ids[j] == root.id;
    }
  }

  ghost function Requested(ids: seq<nat>): set<nat> {
    set id | id in ids
  }

  // The two differ for a struct that holds a function type mentioning the struct itself: the direct
  // search comes back to it, but the function type may have been marked behind a pointer before.

  function GapTable(): seq<Kind> {
    [Unknown, Enum(true), FuncProto(1, [3]), Composite(true, [4]), Typedef(2), Ptr(4)]
  }

  lemma GapRanks() returns (rank: seq<nat>)
    ensures Ranked(GapTable(), rank)
  {
    rank := [0, 0, 1, 0, 2, 3];
    var types := GapTable();
    forall id, t | 0 <= id < |types| && t in Next(types[id])
      ensures t < |types| && rank[t] < rank[id]
    {
      assert Next(types[2]) == [1, 3];
      assert id == 2 || id == 4 || id == 5;
    }
  }

  lemma GapSearched(rank: seq<nat>)
    requires Ranked(GapTable(), rank)
    ensures Searched(GapTable(), rank, [1, 4, 3]) && Clear(GapTable(), rank, Visit(3, false), [1, 4, 3])
  {
    var types, marks := GapTable(), [1, 4, 3];
    assert Clear(types, rank, Visit(2, false), [1]);
    assert marks[..0] == [] && marks[..1] == [1] && marks[..2] == [1, 4];
    assert Through(types, rank, 1, []) && Through(types, rank, 4, [1]) && Through(types, rank, 3, [1, 4]);
  }

  lemma PrototypeGap()
    ensures Refusable(GapTable(), 3, false) && !Refusable(GapTable(), 3, true)
  {
    hide Clear, Searched;
    var w := [Visit(3, false), Visit(4, false), Visit(2, false), Visit(3, false)];
    assert w[..3][0].id == 3;
    assert Explains(GapTable(), w, Visit(3, false), Loop, false);
    var rank := GapRanks();
    GapSearched(rank);
    ClearIsNotRefusable(GapTable(), rank, [1, 4, 3], 3);
  }

  lemma PlentyCompletes(tb: Table, m: Memo, id: nat)
    requires Fits(tb, m) && id < |tb.types| && forall n :: tb.memory(n)
    ensures Completed(tb, m, id).0 == Strong && Completed(tb, m, id).1.order == m.order[id := Ordered]
  {
  }

  /** What the function type does, met with and without a pointer before it. */
  lemma GapPrototype(tb: Table, m: Memo)
    requires Fits(tb, m) && tb.types == GapTable() && forall n :: tb.memory(n)
    requires m.order[1] == m.order[2] == NotOrdered
    ensures m.order[3] == NotOrdered ==> Search(tb, m, 2, true).0 == Strong && Search(tb, m, 2, true).1.order == m.order[1 := Ordered]
    ensures m.order[3] == Ordering ==> Search(tb, m, 2, false).0 == Loop
  {
    hide Search, SearchMentions, Completed, Fit;
    assert Next(tb.types[2]) == [1, 3];
    PlentyCompletes(tb, m, 1);
    var n := Completed(tb, m, 1).1;
    if m.order[3] == NotOrdered {
      PrototypeStep(tb, m, 2, true);
      MentionsStep(tb, m, 2, 0, true, false);
      DoneStep(tb, m, 1, true);
      MentionsStep(tb, n, 2, 1, true, true);
      DoneStep(tb, n, 3, true);
      MentionsEnd(tb, n, 2, true, true);
    } else if m.order[3] == Ordering {
      PrototypeStep(tb, m, 2, false);
      MentionsStep(tb, m, 2, 0, false, false);
      DoneStep(tb, m, 1, false);
      MentionsStep(tb, n, 2, 1, false, true);
      DoneStep(tb, n, 3, false);
    }
  }

  /** Requested alone, the struct is refused. */
  lemma GapRefused(tb: Table)
    requires Fit(tb) && tb.types == GapTable() && forall n :: tb.memory(n)
    ensures Fits(tb, Fresh(tb.types)) && Search(tb, Fresh(tb.types), 3, false).0 == Loop
  {
    hide Search, SearchMembers, Completed, Fit;
    var m := Fresh(tb.types);
    var e := Set(m, 3, Ordering);
    CompositeStep(tb, m, 3, false);
    MembersStep(tb, e, 3, 0);
    TypedefStep(tb, e, 4, false, 2);
    GapPrototype(tb, e);
  }

  /** Requested after the pointer, it is not. */
  lemma GapAccepted(tb: Table)
    requires Fit(tb) && tb.types == GapTable() && forall n :: tb.memory(n)
    ensures Fits(tb, Fresh(tb.types))
    ensures var (r, n) := Search(tb, Fresh(tb.types), 5, false); r == Strong && Search(tb, n.(queue := []), 3, false).0 == Strong
  {
    hide Search, SearchMembers, Completed, Fit;
    var m := Fresh(tb.types);
    PointerStep(tb, m, 5, false, 4);
    TypedefStep(tb, m, 4, true, 2);
    GapPrototype(tb, m);
    var n := Search(tb, m, 2, true).1;
    PlentyCompletes(tb, n, 4);
    var q := Search(tb, m, 5, false).1.(queue := []);
    assert q.order[4] == Ordered && q.order[3] == NotOrdered;
    var e := Set(q, 3, Ordering);
    CompositeStep(tb, q, 3, false);
    MembersStep(tb, e, 3, 0);
    DoneStep(tb, e, 4, false);
    MembersEnd(tb, e, 3);
    PlentyCompletes(tb, e, 3);
  }

  /** The same request can be refused or served, depending on what was requested before it. */
  method OrderMatters(referenced: seq<bool>) returns (alone: Result, first: Result, second: Result)
    requires |referenced| == |GapTable()|
    ensures alone == Loop && first == second == Strong
  {
    hide Search, Fit, Sound, Searched, Clear, Explains, Finished, Ranked, CyclesPassComposites;
    ghost var rank := GapRanks();
    RankedHasNoFreeCycle(GapTable(), rank);
    GapClosed();
    ghost var why;
    var d := new Dumper(GapTable(), referenced, _ => true);
    GapRefused(d.Tab());
    assert d.View().(queue := []) == d.View();
    alone, why := d.DumpType(3);
    var e := new Dumper(GapTable(), referenced, _ => true);
    GapAccepted(e.Tab());
    assert e.View().(queue := []) == e.View();
    first, why := e.DumpType(5);
    second, why := e.DumpType(3);
  }

  lemma GapClosed()
    ensures Closed(GapTable())
  {
    var types := GapTable();
    forall id, t | 0 <= id < |types| && (t in Next(types[id]) || t in Embeds(types[id]))
      ensures t < |types|
    {
      assert Next(types[2]) == [1, 3];
      assert id == 2 || id == 3 || id == 4 || id == 5;
    }
  }

  /** Memory suffices, the requested types exist, and each is sheltered: no struct or union reaches a
      prototype without a pointer, and what an exposed prototype mentions is requested as well. */
  ghost predicate Plain(types: seq<Kind>, memory: nat -> bool, ids: seq<nat>) {
    && (forall n :: memory(n))
    && (forall i :: 0 <= i < |ids| ==> ids[i] < |types| && Sheltered(types, Visit(ids[i], false), Requested(ids)))
  }

  /** A session that requests every type is plain if no struct or union reaches a prototype without
      a pointer, whatever prototypes and typedefs of prototypes there are. */
  lemma WholeTableIsPlain(types: seq<Kind>, memory: nat -> bool, ids: seq<nat>)
    requires Closed(types) && (forall n :: memory(n)) && (forall i :: 0 <= i < |ids| ==> ids[i] < |types|)
    requires forall id :: 0 <= id < |types| ==> id in ids
    requires forall w: seq<Visit> :: Trail(types, w, false) && types[w[0].id].Composite? ==> !Exposed(types, w[|w| - 1])
    ensures Plain(types, memory, ids)
  {
    forall i, w: seq<Visit> | 0 <= i < |ids| && Trail(types, w, false) && w[0] == Visit(ids[i], false) && Exposed(types, w[|w| - 1])
      ensures forall j :: 0 <= j < |w| ==> !types[w[j].id].Composite?
      ensures forall t :: t in Next(types[w[|w| - 1].id]) ==> t in Requested(ids)
    {
      hide Leads;
      forall j | 0 <= j < |w|
        ensures !types[w[j].id].Composite?
      {
        assert Trail(types, w[j..], false);
        assert w[j..][|w| - 1 - j] == w[|w| - 1];
      }
      var last := w[|w| - 1].id;
      assert forall t :: t in Next(types[last]) ==> t < |types|;
    }
  }

  /** Then a session fails exactly when some requested type has a reason to be refused. */
  lemma FailsExactly(types: seq<Kind>, memory: nat -> bool, ids: seq<nat>, r: Result, served: nat)
    requires !r.Failed() ==> forall i :: 0 <= i < |ids| ==> !Refusable(types, ids[i], true)
    requires r.Failed() ==> served < |ids| && Justified(types, memory, ids[served], r)
    requires Plain(types, memory, ids)
    ensures r.Failed() <==> exists i :: 0 <= i < |ids| && Refusable(types, ids[i], false)
  {
    hide Refusable, Sheltered;
    if i :| 0 <= i < |ids| && Refusable(types, ids[i], false) {
      FirmReasonsSuffice(types, ids, i);
    }
  }

  /** For every type table whose cycles all pass through a struct or union, and every sequence of
      requests. If none fails, the output defines everything before it is needed, repeats nothing
      but typedefs, serves every request and holds only what some request leads to, and none had a
      firm reason to be refused. The first request that does fail has a reason to. */
  method DumpAll(types: seq<Kind>, referenced: seq<bool>, memory: nat -> bool, ids: seq<nat>)
      returns (output: seq<nat>, r: Result, served: nat)
    requires |referenced| == |types| > 0 && types[0] == Unknown && Closed(types) && CyclesPassComposites(types)
    ensures !r.Failed() ==> WellOrdered(types, referenced, output) && NoRepeats(types, output)
    ensures !r.Failed() ==> forall i :: 0 <= i < |ids| ==> ids[i] < |types| && Served(types, referenced, output, ids[i])
    ensures !r.Failed() ==> forall i :: 0 <= i < |ids| && types[ids[i]].Composite? && types[ids[i]].named ==> ids[i] in output
    ensures !r.Failed() ==> forall i :: 0 <= i < |ids| && types[ids[i]].Typedef? ==> ids[i] in output
    ensures !r.Failed() ==> forall i :: 0 <= i < |ids| && types[ids[i]].Enum? && (types[ids[i]].named || !referenced[ids[i]]) ==> ids[i] in output
    ensures !r.Failed() ==> forall x :: x in output ==>
              && x < |types|
              && ((types[x].Composite? && types[x].named) || types[x].Typedef? || (types[x].Enum? && (types[x].named || !referenced[x])))
    ensures !r.Failed() ==> forall x :: x in output ==>
              exists w: seq<Visit> ::
                && Trail(types, w, false) && w[0].id in ids && !w[0].behind && w[|w| - 1].id == x
                && !(w[|w| - 1].behind && types[x].Composite? && types[x].named)
    ensures !r.Failed() ==> forall i :: 0 <= i < |ids| ==> !Refusable(types, ids[i], true)
    ensures r.Failed() ==> served < |ids| && Justified(types, memory, ids[served], r)
    ensures Plain(types, memory, ids) ==> (r.Failed() <==> exists i :: 0 <= i < |ids| && Refusable(types, ids[i], false))
  {
    hide Needs, Plain, Sound, LogOk, Definitions, Finished, Served, WellOrdered, NoRepeats, Queued, Closed, CyclesPassComposites, Explains, Clear, Searched,
         Search, AllLed;
    var d := new Dumper(types, referenced, memory);
    NoneLed(types, Requested(ids));
    output, r, served := [], Strong, 0;
    while served < |ids|
      invariant served <= |ids| && fresh(d) && fresh(d.state) && d.Valid() && d.clean
      invariant d.types == types && d.referenced == referenced && d.memory == memory && !r.Failed()
      invariant AllLed(types, Requested(ids), d.log)
      invariant forall j :: 0 <= j < served ==> ids[j] < |types| && Finished(types, d.rank, ids[j], d.log)
      invariant forall j :: 0 <= j < served ==> !Refusable(types, ids[j], true) && Clear(types, d.rank, Visit(ids[j], false), d.marks)
    {
      ghost var before, marks, why, view := d.log, d.marks, [], d.View().(queue := []);
      d.FitFacts();
      r, why := d.DumpType(ids[served]);
      if r.Failed() {
        break;
      }
      RequestLed(d.Tab(), view, ids[served], Requested(ids));
      ClearIsNotRefusable(types, d.rank, d.marks, ids[served]);
      forall j | 0 <= j < served
        ensures Finished(types, d.rank, ids[j], d.log) && Clear(types, d.rank, Visit(ids[j], false), d.marks)
      {
        FinishedGrows(types, d.rank, ids[j], before, d.log);
        ClearGrows(types, d.rank, Visit(ids[j], false), marks, d.marks);
      }
      served := served + 1;
    }
    if Plain(types, memory, ids) {
      FailsExactly(types, memory, ids, r, served);
    }
    if r.Failed() {
      return;
    }
    output := d.emitted;
    d.Output();
    DefinitionsLed(types, referenced, Requested(ids), d.log);
    LedFrom(types, ids, output);
    SearchIsWellOrdered(types, d.rank, referenced, d.marks);
    NoRepeatsOnQueue(types, d.rank, referenced, d.log);
    forall j | 0 <= j < |ids|
      ensures Served(types, referenced, output, ids[j])
    {
      ClearIsServed(types, d.rank, referenced, d.log, d.marks, ids[j]);
    }
    OnlyDefinitions(types, referenced, d.log);
    forall j | 0 <= j < |ids|
      ensures types[ids[j]].Composite? && types[ids[j]].named ==> ids[j] in output
      ensures types[ids[j]].Typedef? ==> ids[j] in output
      ensures types[ids[j]].Enum? && (types[ids[j]].named || !referenced[ids[j]]) ==> ids[j] in output
    {
      RequestedIsDefined(types, referenced, output, ids[j]);
    }
  }

  lemma LedFrom(types: seq<Kind>, ids: seq<nat>, output: seq<nat>)
    requires AllLed(types, Requested(ids), output)
    ensures forall x :: x in output ==>
              exists w: seq<Visit> ::
                && Trail(types, w, false) && w[0].id in ids && !w[0].behind && w[|w| - 1].id == x
                && !(w[|w| - 1].behind && types[x].Composite? && types[x].named)
  {
    hide Leads;
    forall x | x in output
      ensures exists w: seq<Visit> ::
                && Trail(types, w, false) && w[0].id in ids && !w[0].behind && w[|w| - 1].id == x
                && !(w[|w| - 1].behind && types[x].Composite? && types[x].named)
    {
      assert Led(types, Requested(ids), x);
      var w: seq<Visit> :| Rooted(types, Requested(ids), w) && w[|w| - 1].id == x && Enters(types, w[|w| - 1]);
      assert Trail(types, w, false);
    }
  }

  lemma NoRepeatsOnQueue(types: seq<Kind>, rank: seq<nat>, referenced: seq<bool>, log: seq<nat>)
    requires Ranked(types, rank) && Closed(types) && LogOk(types, rank, log) && |referenced| == |types|
    ensures NoRepeats(types, Definitions(types, referenced, log))
  {
    hide Definitions, LogOk;
    QueuedOnce(types, rank, referenced, log);
  }
}
