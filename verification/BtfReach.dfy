/** The ordering of lib/libbpf/src/btf_dump.c defines nothing but what the requests lead to. */
module BtfReach {
  import opened BtfGraph
  import opened BtfSearch
  import opened BtfSpec

  /** A visit that may end in a definition: a named struct or union behind a pointer needs none. */
  ghost predicate Enters(types: seq<Kind>, v: Visit) {
    v.id < |types| && !(v.behind && types[v.id].Composite? && types[v.id].named)
  }

  /** The trail comes from one of the roots. */
  ghost predicate Rooted(types: seq<Kind>, roots: set<nat>, w: seq<Visit>) {
    Trail(types, w, false) && w[0].id in roots && !w[0].behind
  }

  /** A root leads to the type, and not only behind a pointer if a forward declaration would do. */
  ghost predicate Led(types: seq<Kind>, roots: set<nat>, id: nat) {
    exists w: seq<Visit> :: Rooted(types, roots, w) && w[|w| - 1].id == id && Enters(types, w[|w| - 1])
  }

  ghost predicate AllLed(types: seq<Kind>, roots: set<nat>, log: seq<nat>) {
    forall id :: id in log ==> Led(types, roots, id)
  }

  lemma RootedGrows(types: seq<Kind>, roots: set<nat>, w: seq<Visit>, v: Visit)
    requires Rooted(types, roots, w) && Leads(types, w[|w| - 1], v, false) && v.id < |types|
    ensures Rooted(types, roots, w + [v])
  {
    hide Leads;
    TrailGrows(types, w, v, false);
  }

  lemma CompletedLed(tb: Table, m: Memo, id: nat, roots: set<nat>, w: seq<Visit>)
    requires Fits(tb, m) && id < |tb.types| && AllLed(tb.types, roots, m.log)
    requires Rooted(tb.types, roots, w) && w[|w| - 1].id == id && Enters(tb.types, w[|w| - 1])
    ensures AllLed(tb.types, roots, Completed(tb, m, id).1.log)
  {
    hide Rooted;
    assert Led(tb.types, roots, id);
  }

  /** Whatever a search defines is led to. */
  lemma {:induction false} SearchLed(tb: Table, m: Memo, id: nat, ptr: bool, roots: set<nat>, w: seq<Visit>)
    requires Fits(tb, m) && id < |tb.types| && AllLed(tb.types, roots, m.log)
    requires Rooted(tb.types, roots, w) && w[|w| - 1] == Visit(id, ptr)
    ensures AllLed(tb.types, roots, Search(tb, m, id, ptr).1.log)
    decreases Unvisited(tb, m), tb.rank[id], 2, 0
  {
    hide Search, Completed, Unvisited, AllLed, Rooted, SearchMembers, SearchMentions;
    DoneStep(tb, m, id, ptr);
    if m.order[id] == NotOrdered {
      match tb.types[id] {
        case Ptr(t) =>
          PointerStep(tb, m, id, ptr, t);
          RootedGrows(tb.types, roots, w, Visit(t, true));
          SearchLed(tb, m, t, true, roots, w + [Visit(t, true)]);
        case Array(t) =>
          PassingStep(tb, m, id, ptr, t);
          RootedGrows(tb.types, roots, w, Visit(t, ptr));
          SearchLed(tb, m, t, ptr, roots, w + [Visit(t, ptr)]);
        case Qualifier(t) =>
          PassingStep(tb, m, id, ptr, t);
          RootedGrows(tb.types, roots, w, Visit(t, ptr));
          SearchLed(tb, m, t, ptr, roots, w + [Visit(t, ptr)]);
        case Typedef(t) =>
          TypedefStep(tb, m, id, ptr, t);
          RootedGrows(tb.types, roots, w, Visit(t, ptr));
          SearchLed(tb, m, t, ptr, roots, w + [Visit(t, ptr)]);
          CompletedLed(tb, Search(tb, m, t, ptr).1, id, roots, w);
        case Composite(named, _) =>
          if !(ptr && named) {
            CompositeStep(tb, m, id, ptr);
            var n := Set(m, id, Ordering);
            MembersLed(tb, n, id, 0, ptr, roots, w);
            CompletedLed(tb, SearchMembers(tb, n, id, 0).1, id, roots, w);
          }
        case FuncProto(_, _) =>
          PrototypeStep(tb, m, id, ptr);
          MentionsLed(tb, m, id, 0, ptr, false, roots, w);
        case Enum(_) =>
          CompletedLed(tb, m, id, roots, w);
        case _ =>
      }
    }
  }

  lemma {:induction false} MembersLed(tb: Table, m: Memo, id: nat, i: nat, ptr: bool, roots: set<nat>, w: seq<Visit>)
    requires Fits(tb, m) && id < |tb.types| && tb.types[id].Composite? && i <= |tb.types[id].members| && AllLed(tb.types, roots, m.log)
    requires Rooted(tb.types, roots, w) && w[|w| - 1] == Visit(id, ptr) && !(ptr && tb.types[id].named)
    ensures AllLed(tb.types, roots, SearchMembers(tb, m, id, i).1.log)
    decreases Unvisited(tb, m), Ceiling(tb.rank), 0, |tb.types[id].members| - i
  {
    hide Search, SearchMembers, Unvisited, AllLed, Rooted, Leads;
    var ms := tb.types[id].members;
    if i == |ms| {
      MembersEnd(tb, m, id);
    } else {
      MembersStep(tb, m, id, i);
      var (r, n) := Search(tb, m, ms[i], false);
      LeadsToMember(tb.types, Visit(id, ptr), i);
      RootedGrows(tb.types, roots, w, Visit(ms[i], false));
      SearchLed(tb, m, ms[i], false, roots, w + [Visit(ms[i], false)]);
      if !r.Failed() {
        MembersLed(tb, n, id, i + 1, ptr, roots, w);
      }
    }
  }

  lemma {:induction false} MentionsLed(tb: Table, m: Memo, id: nat, i: nat, ptr: bool, strong: bool, roots: set<nat>, w: seq<Visit>)
    requires Fits(tb, m) && id < |tb.types| && tb.types[id].FuncProto? && i <= |Next(tb.types[id])| && AllLed(tb.types, roots, m.log)
    requires Rooted(tb.types, roots, w) && w[|w| - 1] == Visit(id, ptr)
    ensures AllLed(tb.types, roots, SearchMentions(tb, m, id, i, ptr, strong).1.log)
    decreases Unvisited(tb, m), tb.rank[id], 1, |Next(tb.types[id])| - i
  {
    hide Search, SearchMentions, Unvisited, AllLed, Rooted, Leads;
    var ts := Next(tb.types[id]);
    if i == |ts| {
      MentionsEnd(tb, m, id, ptr, strong);
    } else {
      MentionsStep(tb, m, id, i, ptr, strong);
      var (r, n) := Search(tb, m, ts[i], ptr);
      LeadsToMention(tb.types, Visit(id, ptr), i);
      RootedGrows(tb.types, roots, w, Visit(ts[i], ptr));
      SearchLed(tb, m, ts[i], ptr, roots, w + [Visit(ts[i], ptr)]);
      if !r.Failed() {
        MentionsLed(tb, n, id, i + 1, ptr, strong || r == Strong, roots, w);
      }
    }
  }

  lemma NoneLed(types: seq<Kind>, roots: set<nat>)
    ensures AllLed(types, roots, [])
  {
  }

  /** One request. */
  lemma RequestLed(tb: Table, m: Memo, id: nat, roots: set<nat>)
    requires Fits(tb, m) && id < |tb.types| && id in roots && AllLed(tb.types, roots, m.log)
    ensures AllLed(tb.types, roots, Search(tb, m, id, false).1.log)
  {
    hide Search, AllLed, Fit;
    SearchLed(tb, m, id, false, roots, [Visit(id, false)]);
  }

  lemma {:induction false} DefinitionsLed(types: seq<Kind>, referenced: seq<bool>, roots: set<nat>, log: seq<nat>)
    requires |referenced| == |types| && AllLed(types, roots, log)
    ensures AllLed(types, roots, Definitions(types, referenced, log))
  {
    hide Led;
    if log != [] {
      DefinitionsLed(types, referenced, roots, log[..|log| - 1]);
    }
  }
}
