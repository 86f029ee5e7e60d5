/** The dumper that orders type definitions (lib/libbpf/src/btf_dump.c). */
module BtfOrder {
  import opened BtfGraph
  import opened BtfSearch
  import opened BtfSpec

  class Dumper {
    const types: seq<Kind>
    const referenced: seq<bool>
    const memory: nat -> bool   // the outcome of each reallocation of the queue
    ghost const rank: seq<nat>
    const state: array<OrderState>
    var queue: seq<nat>
    var queueCap: nat
    var reallocs: nat
    ghost var log: seq<nat>      // the definitions finished, in order, since the dumper was made
    ghost var marks: seq<nat>    // the types marked, other than those that lead nowhere, in order
    ghost var past: seq<nat>     // what earlier calls put on the queue
    var emitted: seq<nat>        // what has been handed to the emission of text, in order
    ghost var clean: bool        // no call has failed

    ghost function Tab(): Table {
      Table(types, referenced, memory, rank)
    }

    ghost function View(): Memo
      reads this`queue, this`queueCap, this`reallocs, this`log, this`marks, state
    {
      Memo(state[..], queue, queueCap, reallocs, log, marks)
    }

    ghost predicate Fitting()
    {
      Fit(Tab()) && state.Length == |types|
    }

    /** btf_dump_add_emit_queue_id. */
    method Enqueue(id: nat) returns (ok: bool)
      modifies this`queue, this`queueCap, this`reallocs
      ensures (ok, View()) == Enqueued(Tab(), old(View()), id)
      ensures ok <==> old(|queue|) < old(queueCap) || memory(old(reallocs) + 1)
      ensures queue == if ok then old(queue) + [id] else old(queue)
      ensures queueCap == if !ok || old(|queue|) < old(queueCap) then old(queueCap) else if old(queueCap) * 3 / 2 < 16 then 16 else old(queueCap) * 3 / 2
    {
      if |queue| >= queueCap {
        var newCap := NextCap(queueCap);
        reallocs := reallocs + 1;
        if !memory(reallocs) {
          return false;
        }
        queueCap := newCap;
      }
      queue := queue + [id];
      ok := true;
    }

    /** A definition is complete: queue it, log it and mark it. */
    method Complete(id: nat) returns (r: Result)
      requires Fitting() && id < |types|
      modifies this`queue, this`queueCap, this`reallocs, this`log, this`marks, state
      ensures (r, View()) == Completed(Tab(), old(View()), id)
      ensures if r == Strong then state[id] == Ordered else r == NoMemory && state[..] == old(state[..]) && queue == old(queue)
      ensures r == Strong ==>
                queue == if (types[id].Composite? && types[id].named) || types[id].Typedef? || (types[id].Enum? && (types[id].named || !referenced[id]))
                         then old(queue) + [id] else old(queue)
    {
      hide Enqueued, Fit;
      FitFacts();
      if Queued(types[id], referenced[id]) {
        var ok := Enqueue(id);
        if !ok {
          return NoMemory;
        }
      }
      log, marks := log + [id], marks + [id];
      state[id] := Ordered;
      r := Strong;
    }

    /** btf_dump_order_type. */
    method OrderType(id: nat, throughPtr: bool) returns (r: Result)
      requires Fitting() && id < |types|
      modifies this`queue, this`queueCap, this`reallocs, this`log, this`marks, state
      ensures (r, View()) == Search(Tab(), old(View()), id, throughPtr)
      decreases Unvisited(Tab(), View()), rank[id], 2, 0
    {
      hide Search, Completed, Unvisited, Fit;
      FitFacts();
      ghost var tb, m := Tab(), View();
      DoneStep(tb, m, id, throughPtr);
      if state[id] == Ordered {
        return Strong;
      }
      if state[id] == Ordering {
        if types[id].Composite? && throughPtr && types[id].named {
          return Weak;
        }
        return Loop;
      }
      match types[id] {
        case Int =>
          state[id] := Ordered;
          r := Weak;
        case Ptr(t) =>
          PointerStep(tb, m, id, throughPtr, t);
          r := OrderType(t, true);
          state[id] := Ordered;
          marks := marks + [id];
        case Array(t) =>
          PassingStep(tb, m, id, throughPtr, t);
          r := OrderType(t, throughPtr);
        case Composite(named, _) =>
          if throughPtr && named {
            return Weak;
          }
          r := OrderComposite(id, throughPtr);
        case Enum(_) =>
          r := Complete(id);
        case Typedef(t) =>
          TypedefStep(tb, m, id, throughPtr, t);
          r := OrderType(t, throughPtr);
          if r.Failed() || (throughPtr && r == Weak) {
            return;
          }
          r := Complete(id);
        case Qualifier(t) =>
          PassingStep(tb, m, id, throughPtr, t);
          r := OrderType(t, throughPtr);
        case FuncProto(_, _) =>
          r := OrderProto(id, throughPtr);
        case Ignored =>
          state[id] := Ordered;
          r := Weak;
        case Unknown =>
          r := Invalid;
      }
    }

    lemma FitFacts()
      requires Fitting()
      ensures |referenced| == |types| == |rank| && Fits(Tab(), View())
    {
    }

    /** A struct or union is defined after its members. */
    method OrderComposite(id: nat, throughPtr: bool) returns (r: Result)
      requires Fitting() && id < |types| && types[id].Composite? && state[id] == NotOrdered && !(throughPtr && types[id].named)
      modifies this`queue, this`queueCap, this`reallocs, this`log, this`marks, state
      ensures (r, View()) == Search(Tab(), old(View()), id, throughPtr)
      decreases Unvisited(Tab(), View()), rank[id], 1, 0
    {
      hide Search, SearchMembers, Completed, Unvisited, Fit, Ceiling;
      FitFacts();
      ghost var tb, m := Tab(), View();
      CompositeStep(tb, m, id, throughPtr);
      var members := types[id].members;
      state[id] := Ordering;
      assert View() == Set(m, id, Ordering);
      ghost var all := SearchMembers(tb, View(), id, 0);
      var i := 0;
      while i < |members|
        invariant i <= |members| && Fits(tb, View()) && Unvisited(tb, View()) < Unvisited(tb, m)
        invariant SearchMembers(tb, View(), id, i) == all
      {
        MembersStep(tb, View(), id, i);
        r := OrderType(members[i], false);
        if r.Failed() {
          return;
        }
        i := i + 1;
      }
      MembersEnd(tb, View(), id);
      r := Complete(id);
    }

    /** The result of a prototype and its parameters. */
    method OrderProto(id: nat, throughPtr: bool) returns (r: Result)
      requires Fitting() && id < |types| && types[id].FuncProto? && state[id] == NotOrdered
      modifies this`queue, this`queueCap, this`reallocs, this`log, this`marks, state
      ensures (r, View()) == Search(Tab(), old(View()), id, throughPtr)
      decreases Unvisited(Tab(), View()), rank[id], 1, 0
    {
      hide Search, SearchMentions, Unvisited, Fit, Next;
      FitFacts();
      ghost var tb, m := Tab(), View();
      PrototypeStep(tb, m, id, throughPtr);
      var FuncProto(result, params) := types[id];
      MentionedTypes(types[id]);
      MentionsStep(tb, m, id, 0, throughPtr, false);
      r := OrderType(result, throughPtr);
      if r.Failed() {
        return;
      }
      var strong := r == Strong;
      ghost var all := SearchMentions(tb, m, id, 0, throughPtr, false);
      var i := 0;
      while i < |params|
        invariant i <= |params| && Fits(tb, View()) && Unvisited(tb, View()) <= Unvisited(tb, m)
        invariant SearchMentions(tb, View(), id, i + 1, throughPtr, strong) == all
      {
        MentionsStep(tb, View(), id, i + 1, throughPtr, strong);
        r := OrderType(params[i], throughPtr);
        if r.Failed() {
          return;
        }
        if r == Strong {
          strong := true;
        }
        i := i + 1;
      }
      MentionsEnd(tb, View(), id, throughPtr, strong);
      r := if strong then Strong else Weak;
    }

    lemma MentionedTypes(k: Kind)
      requires k.FuncProto?
      ensures |Next(k)| == |k.params| + 1 && Next(k)[0] == k.result && forall i :: 0 <= i < |k.params| ==> Next(k)[i + 1] == k.params[i]
    {
    }

    ghost predicate Valid()
      reads this, state
    {
      && Fitting() && Sound(Tab(), View(), past)
      && (clean ==> emitted == past + queue && Searched(types, rank, marks) && forall i :: 0 <= i < state.Length ==> state[i] != Ordering)
    }

    /** What has been emitted are the definitions logged and marked. */
    lemma Output()
      requires Valid()
      ensures LogOk(types, rank, log)
      ensures clean ==> emitted == Definitions(types, referenced, log) == Definitions(types, referenced, marks)
    {
    }

    /** btf_dump__new. */
    constructor (types: seq<Kind>, referenced: seq<bool>, memory: nat -> bool)
      requires |referenced| == |types| > 0 && types[0] == Unknown && Closed(types) && CyclesPassComposites(types)
      ensures Valid() && clean && fresh(state) && View() == Fresh(types)
      ensures this.types == types && this.referenced == referenced && this.memory == memory
    {
      hide Sound, Searched, CyclesPassComposites, Closed;
      ghost var rank := RankExists(types);
      this.types, this.referenced, this.memory, this.rank := types, referenced, memory, rank;
      state := new OrderState[|types|](i => if i == 0 then Ordered else NotOrdered);  // VOID is special
      queue, queueCap, reallocs := [], 0, 0;
      log, marks, past, emitted, clean := [], [], [], [], true;
      new;
      assert state[..] == Fresh(types).order;
      FreshSound(Tab());
    }

    /** The second pass takes the queue from front to back. */
    method Emit()
      modifies this`emitted
      ensures emitted == old(emitted) + queue
    {
      for i := 0 to |queue|
        invariant emitted == old(emitted) + queue[..i]
      {
        emitted := emitted + [queue[i]];
      }
    }

    /** btf_dump__dump_type, up to the emission of each type on the queue. */
    method DumpType(id: nat) returns (r: Result, ghost why: seq<Visit>)
      requires Valid()
      modifies this, state
      ensures Valid() && old(log) <= log && old(marks) <= marks
      ensures if id < |types| then (r, View()) == Search(Tab(), old(View()).(queue := []), id, false) else r == Invalid && View() == old(View())
      ensures clean == (old(clean) && (id >= |types| || !r.Failed()))
      ensures !r.Failed() ==> id < |types| && Finished(types, rank, id, log)
      ensures clean && !r.Failed() ==> Clear(types, rank, Visit(id, false), marks)
      ensures r == NoMemory ==> !memory(reallocs)
      ensures old(clean) && id < |types| && r.Refused() ==> Explains(types, why, Visit(id, false), r, false)
    {
      hide Fit, Search, Sound, Finished, Searched, Clear, Explains, Settles;
      why := [Visit(id, false)];
      if id >= |types| {
        return Invalid, why;
      }
      FitFacts();
      ghost var tb, m := Tab(), View().(queue := []);
      Restarted(tb, View(), past);
      past, queue := past + queue, [];
      SearchKeeps(tb, m, past, id, false);
      if clean {
        SearchClears(tb, m, past, id, false);
        if Search(tb, m, id, false).0.Refused() {
          Begun(tb, m, id);
          why := SearchExplained(tb, m, past, id, false, why);
        }
      }
      r := OrderType(id, false);
      if r.Failed() {
        clean := false;
        return;
      }
      NothingOpen(m, View());
      Emit();
    }
  }
}
