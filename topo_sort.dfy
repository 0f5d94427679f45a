/**
 * Orders the type list so that every base comes before the types that extend
 * it: a depth-first walk over the declared bases, visiting the records in
 * input order.
 */
module TopoSorting {
  import opened Wrappers
  import opened SchemaTypes
  import opened StrictMaps
  import opened BaseGraph

  /** The two ways the sort gives up. */
  datatype SortError =
    | UnknownReference(base: Id)    // a declared base that no record has as its id
    | DependencyCycle(name: string) // a name met again while its own bases are being visited

  /** The names of the records of a list. */
  ghost function NamesOf(types: seq<TypeRecord>): set<string>
  {
    set u | u in types :: u.name
  }

  /** Each id of `graph` is held by a record of the list with that id. */
  ghost predicate IndexesRecords(types: seq<TypeRecord>, graph: map<Id, TypeRecord>)
  {
    forall k :: k in graph ==> graph[k].id == k && graph[k] in types
  }

  /** Every base listed in `adj` is an id of `graph`. */
  ghost predicate EdgesResolve(adj: map<Id, seq<Id>>, graph: map<Id, TypeRecord>)
  {
    forall t, b :: Edge(adj, t, b) ==> b in graph
  }

  /**
   * The state the recursive visit shares: the record and base indexes, the
   * output map, the names on the current walk and the ids already placed.
   */
  class Visitor {
    ghost const types: seq<TypeRecord>
    const graph: StrictMap<Id, TypeRecord>
    const adj: StrictMap<Id, seq<Id>>
    const sorted: StrictMap<Id, TypeRecord>
    var visiting: set<string>
    var visited: set<Id>

    ghost predicate Valid()
      reads this, graph, adj, sorted
    {
      && graph.Valid() && adj.Valid() && sorted.Valid()
      && sorted != graph && sorted as object != adj as object
      && visiting <= NamesOf(types)
      && IndexesRecords(types, graph.items)
      && EdgesResolve(adj.items, graph.items)
      && (forall k :: k in sorted.items <==> k in visited)
      && IndexesRecords(types, sorted.items)
      && EdgesFirst(adj.items, sorted.keys)
    }

    constructor (ghost types: seq<TypeRecord>, graph: StrictMap<Id, TypeRecord>, adj: StrictMap<Id, seq<Id>>)
      requires graph.Valid() && adj.Valid()
      requires IndexesRecords(types, graph.items) && EdgesResolve(adj.items, graph.items)
      ensures Valid()
      ensures this.types == types && this.graph == graph && this.adj == adj
      ensures visiting == {} && visited == {} && sorted.keys == [] && fresh(sorted)
    {
      this.types := types;
      this.graph := graph;
      this.adj := adj;
      sorted := new StrictMap();
      visiting := {};
      visited := {};
    }

    /**
     * Places `t` after all its transitive bases. `stack` is the walk that led
     * here: each entry lists the next as a base, and the last lists `t`.
     */
    method Visit(t: TypeRecord, ghost stack: seq<TypeRecord>) returns (res: Result<(), SortError>)
      requires Valid()
      requires t in types && forall u :: u in stack ==> u in types
      requires visiting == NamesOf(stack)
      requires forall i :: 0 <= i < |stack| - 1 ==> Edge(adj.items, stack[i].id, stack[i + 1].id)
      requires stack != [] ==> Edge(adj.items, stack[|stack| - 1].id, t.id)
      modifies this, sorted
      decreases NamesOf(types) - visiting, 0
      ensures res.Ok? ==> Valid() && visiting == old(visiting)
      ensures res.Ok? ==> old(visited) <= visited && t.id in visited && old(sorted.keys) <= sorted.keys
      ensures res.Ok? ==> forall k :: k in visited && k !in old(visited) ==> EdgeReaches(adj.items, t.id, k)
      ensures res.Ok? ==> forall k :: k in old(sorted.items) ==> k in sorted.items && sorted.items[k] == old(sorted.items)[k]
      ensures res.Ok? && t.id !in old(visited) ==> sorted.items[t.id] == t
      ensures res.Err? ==> res.error.DependencyCycle? && (HasEdgeCycle(adj.items) || !NamesIdentify(types))
      ensures t.name in old(visiting) ==> res == Err(DependencyCycle(t.name))
      ensures t.name !in old(visiting) && t.id in old(visited) ==> res == Ok(()) && unchanged(this, sorted)
    {
      if t.name in visiting {
        RevisitedNameIsCycle(types, adj.items, stack, t);
        return Err(DependencyCycle(t.name));
      }
      if t.id !in visited {
        ghost var before := visiting;
        visiting := visiting + {t.name};
        assert visiting == NamesOf(stack + [t]);
        if adj.Has(t.id) {
          res := VisitBases(t, stack);
          if res.Err? {
            return;
          }
        }
        Place(t);
        assert visiting == before by {
          assert before + {t.name} - {t.name} == before;
        }
        EdgeReachesItself(adj.items, t.id);
      }
      return Ok(());
    }

    /** Visits, in order, the bases listed for `t`, whose name is now on the walk. */
    method VisitBases(t: TypeRecord, ghost stack: seq<TypeRecord>) returns (res: Result<(), SortError>)
      requires Valid() && t.id in adj.items
      requires t in types && forall u :: u in stack ==> u in types
      requires visiting == NamesOf(stack + [t])
      requires forall i :: 0 <= i < |stack| - 1 ==> Edge(adj.items, stack[i].id, stack[i + 1].id)
      requires stack != [] ==> Edge(adj.items, stack[|stack| - 1].id, t.id)
      modifies this, sorted
      decreases NamesOf(types) - visiting, 1
      ensures res.Ok? ==> Valid() && visiting == old(visiting)
      ensures res.Ok? ==> old(visited) <= visited && old(sorted.keys) <= sorted.keys
      ensures res.Ok? ==> forall b :: Edge(adj.items, t.id, b) ==> b in visited
      ensures res.Ok? ==> forall k :: k in visited && k !in old(visited) ==> EdgeReaches(adj.items, t.id, k)
      ensures res.Ok? ==> forall k :: k in old(sorted.items) ==> k in sorted.items && sorted.items[k] == old(sorted.items)[k]
      ensures res.Err? ==> res.error.DependencyCycle? && (HasEdgeCycle(adj.items) || !NamesIdentify(types))
    {
      var bases := adj.Get(t.id);
      ghost var chain := stack + [t];
      assert forall i :: 0 <= i < |chain| - 1 ==> Edge(adj.items, chain[i].id, chain[i + 1].id);
      for i := 0 to |bases|
        invariant Valid() && t.id in adj.items && adj.items[t.id] == bases
        invariant visiting == old(visiting)
        invariant old(visited) <= visited && old(sorted.keys) <= sorted.keys
        invariant forall k :: k in visited && k !in old(visited) ==> EdgeReaches(adj.items, t.id, k)
        invariant forall j :: 0 <= j < i ==> bases[j] in visited
        invariant forall k :: k in old(sorted.items) ==> k in sorted.items && sorted.items[k] == old(sorted.items)[k]
      {
        ghost var mid := visited;
        assert Edge(adj.items, t.id, bases[i]);
        var base := graph.Get(bases[i]);
        assert base.id == bases[i] && base in types;
        var r := Visit(base, chain);
        if r.Err? {
          return r;
        }
        ReachedThroughBase(adj.items, t.id, bases[i], old(visited), mid, visited);
        PrefixVisited(bases, i, mid, visited);
      }
      return Ok(());
    }

    /** Appends `t` to the output once every base listed for its id has been placed. */
    method Place(t: TypeRecord)
      requires Valid() && t in types && t.name in visiting
      requires forall b :: Edge(adj.items, t.id, b) ==> b in visited
      modifies this, sorted
      ensures Valid()
      ensures visiting == old(visiting) - {t.name} && visited == old(visited) + {t.id}
      ensures sorted.items == old(sorted.items)[t.id := t]
      ensures sorted.keys == if t.id in old(visited) then old(sorted.keys) else old(sorted.keys) + [t.id]
    {
      EdgesFirstAppend(adj.items, sorted.keys, t.id);
      sorted.Set(t.id, t);
      visited := visited + {t.id};
      visiting := visiting - {t.name};
    }
  }

  /** Once base `i` is placed, and nothing placed is lost, the first `i + 1` bases are placed. */
  lemma PrefixVisited(bases: seq<Id>, i: int, before: set<Id>, after: set<Id>)
    requires 0 <= i < |bases| && before <= after && bases[i] in after
    requires forall j :: 0 <= j < i ==> bases[j] in before
    ensures forall j :: 0 <= j < i + 1 ==> bases[j] in after
  {
  }

  /** Meeting again a name of the current walk means a cycle, once equal names mean equal ids. */
  lemma RevisitedNameIsCycle(types: seq<TypeRecord>, adj: map<Id, seq<Id>>, stack: seq<TypeRecord>, t: TypeRecord)
    requires t in types && forall u :: u in stack ==> u in types
    requires t.name in NamesOf(stack)
    requires forall i :: 0 <= i < |stack| - 1 ==> Edge(adj, stack[i].id, stack[i + 1].id)
    requires stack != [] ==> Edge(adj, stack[|stack| - 1].id, t.id)
    ensures HasEdgeCycle(adj) || !NamesIdentify(types)
  {
    var chain := seq(|stack|, i requires 0 <= i < |stack| => stack[i].id);
    var k :| 0 <= k < |stack| && stack[k].name == t.name;
    if NamesIdentify(types) {
      assert stack[k] in stack;
      RepeatedIdIsEdgeCycle(adj, chain, t.id, k);
    }
  }

  /** What a base's visit adds is reachable from the type that lists the base. */
  lemma ReachedThroughBase(adj: map<Id, seq<Id>>, x: Id, b: Id, before: set<Id>, mid: set<Id>, after: set<Id>)
    requires Edge(adj, x, b) && before <= mid
    requires forall k :: k in mid && k !in before ==> EdgeReaches(adj, x, k)
    requires forall k :: k in after && k !in mid ==> EdgeReaches(adj, b, k)
    ensures forall k :: k in after && k !in before ==> EdgeReaches(adj, x, k)
  {
    forall k | k in after && k !in before
      ensures EdgeReaches(adj, x, k)
    {
      if k !in mid {
        EdgeReachesThroughBase(adj, x, b, k);
      }
    }
  }

  /** Fills the id-to-record map, a later record with the same id replacing an earlier one. */
  method IndexRecords(types: seq<TypeRecord>) returns (graph: StrictMap<Id, TypeRecord>)
    ensures fresh(graph) && graph.Valid()
    ensures forall k :: k in graph.items <==> HasId(types, k)
    ensures IndexesRecords(types, graph.items)
    ensures forall k :: k in graph.items ==> exists j :: LastWithId(types, |types|, k, j) && graph.items[k] == types[j]
  {
    graph := new StrictMap();
    ghost var at: map<Id, int> := map[];
    for i := 0 to |types|
      invariant fresh(graph) && graph.Valid()
      invariant forall k :: k in graph.items <==> k in at
      invariant forall k :: k in at ==> LastWithId(types, i, k, at[k]) && graph.items[k] == types[at[k]]
      invariant forall j :: 0 <= j < i ==> types[j].id in at
    {
      LastWithIdOneMore(types, i);
      graph.Set(types[i].id, types[i]);
      at := at[types[i].id := i];
    }
    forall k | HasId(types, k)
      ensures k in graph.items
    {
      var j :| 0 <= j < |types| && types[j].id == k;
    }
    forall k | k in graph.items
      ensures HasId(types, k) && graph.items[k] in types
    {
      assert types[at[k]].id == k;
    }
  }

  lemma LastWithIdOneMore(types: seq<TypeRecord>, i: int)
    requires 0 <= i < |types|
    ensures LastWithId(types, i + 1, types[i].id, i)
    ensures forall k, j :: k != types[i].id && LastWithId(types, i, k, j) ==> LastWithId(types, i + 1, k, j)
  {
  }

  /** Among the first `n` records, the `j`-th has id `k` and no later one does. */
  ghost predicate LastWithId(types: seq<TypeRecord>, n: int, k: Id, j: int)
  {
    0 <= j < n <= |types| && types[j].id == k && forall j' :: j < j' < n ==> types[j'].id != k
  }

  /**
   * Fills the id-to-bases map from the object and scalar records, each base
   * listed once, and fails on the first base that is not an id of `graph`.
   */
  method IndexBases(types: seq<TypeRecord>, graph: StrictMap<Id, TypeRecord>)
    returns (r: Result<StrictMap<Id, seq<Id>>, SortError>)
    requires graph.Valid() && forall k :: k in graph.items <==> HasId(types, k)
    ensures r.Ok? ==> fresh(r.value) && r.value.Valid()
    ensures r.Ok? ==> ListsBases(types, r.value.items) && EdgesResolve(r.value.items, graph.items)
    ensures r.Ok? ==> forall t :: t in r.value.items ==> Distinct(r.value.items[t])
    ensures r.Ok? <==> !HasUnknownBase(types)
    ensures r.Err? ==> r.error.UnknownReference? && FirstUnknownBase(types, r.error.base)
  {
    var adj := new StrictMap<Id, seq<Id>>();
    for i := 0 to |types|
      invariant fresh(adj) && adj.Valid()
      invariant ListsBases(types[..i], adj.items) && EdgesResolve(adj.items, graph.items)
      invariant forall t :: t in adj.items ==> Distinct(adj.items[t])
      invariant forall j, b :: 0 <= j < i && b in BasesOf(types[j]) ==> HasId(types, b)
    {
      ghost var edges := adj.items;
      if !types[i].ObjectType? && !types[i].ScalarType? {
        ListsBasesOneMore(types, i, edges, adj.items);
        continue;
      }
      var bases := BasesOf(types[i]);
      var missing := ListBases(adj, graph, types[i].id, bases);
      if missing.None? {
        ListsBasesOneMore(types, i, edges, adj.items);
      } else {
        ghost var j :| 0 <= j < |bases| && bases[j] == missing.value && missing.value !in graph.items
                       && (forall j' :: 0 <= j' < j ==> bases[j'] in graph.items);
        assert UnknownBaseAt(types, i, j);
        return Err(UnknownReference(missing.value));
      }
    }
    assert types[..|types|] == types;
    return Ok(adj);
  }

  /** Listing the bases of record `i` extends a map that lists those of the records before it. */
  lemma ListsBasesOneMore(types: seq<TypeRecord>, i: int, before: map<Id, seq<Id>>, after: map<Id, seq<Id>>)
    requires 0 <= i < |types| && ListsBases(types[..i], before)
    requires forall t, b :: Edge(after, t, b) <==> Edge(before, t, b) || (t == types[i].id && b in BasesOf(types[i]))
    ensures ListsBases(types[..i + 1], after)
  {
    forall t, b
      ensures DeclaresBase(types[..i + 1], t, b) <==>
        DeclaresBase(types[..i], t, b) || (t == types[i].id && b in BasesOf(types[i]))
    {
      DeclaresBaseOneMore(types, i, t, b);
    }
  }

  /**
   * Adds the bases of one record under `id`, skipping those already listed,
   * and stops at the first base that is not an id of `graph`.
   */
  method ListBases(adj: StrictMap<Id, seq<Id>>, graph: StrictMap<Id, TypeRecord>, id: Id, bases: seq<Id>)
    returns (missing: Option<Id>)
    requires adj.Valid() && graph.Valid() && adj as object != graph as object
    requires EdgesResolve(adj.items, graph.items)
    requires forall t :: t in adj.items ==> Distinct(adj.items[t])
    modifies adj
    ensures adj.Valid() && EdgesResolve(adj.items, graph.items)
    ensures forall t :: t in adj.items ==> Distinct(adj.items[t])
    ensures missing.None? ==> forall b :: b in bases ==> b in graph.items
    ensures missing.None? ==> forall t, b :: Edge(adj.items, t, b) <==> Edge(old(adj.items), t, b) || (t == id && b in bases)
    ensures missing.None? ==> adj.items == WithBases(old(adj.items), id, bases)
    ensures missing.Some? ==> exists j :: 0 <= j < |bases| && bases[j] == missing.value && missing.value !in graph.items
                                 && (forall j' :: 0 <= j' < j ==> bases[j'] in graph.items)
                                 && adj.items == WithBases(old(adj.items), id, bases[..j])
  {
    ghost var before, known := adj.items, graph.items;
    for j := 0 to |bases|
      invariant adj.Valid() && adj.items == WithBases(before, id, bases[..j])
      invariant graph.items == known
      invariant forall b :: b in bases[..j] ==> b in known
    {
      ListedBases(before, known, id, bases[..j]);
      var base := bases[j];
      if !graph.Has(base) {
        assert forall j' :: 0 <= j' < j ==> bases[j'] in bases[..j];
        return Some(base);
      }
      AddBase(adj, id, base);
      assert bases[..j + 1][..j] == bases[..j];
    }
    assert bases[..|bases|] == bases;
    ListedBases(before, known, id, bases);
    return None;
  }

  /**
   * Listing bases that are all ids of `graph` adds exactly their edges, keeps
   * every edge resolving and every entry free of repeats.
   */
  lemma ListedBases(adj: map<Id, seq<Id>>, graph: map<Id, TypeRecord>, id: Id, bases: seq<Id>)
    requires EdgesResolve(adj, graph) && forall t :: t in adj ==> Distinct(adj[t])
    requires forall b :: b in bases ==> b in graph
    ensures var r := WithBases(adj, id, bases);
      && EdgesResolve(r, graph) && (forall t :: t in r ==> Distinct(r[t]))
      && forall t, b :: Edge(r, t, b) <==> Edge(adj, t, b) || (t == id && b in bases)
  {
    if |bases| > 0 {
      var r := WithBases(adj, id, bases);
      ExtendedHolds(Listed(adj, id), bases);
      ExtendedDistinct(Listed(adj, id), bases);
      forall t, b | Edge(r, t, b)
        ensures b in graph
      {
        if t != id {
          assert Edge(adj, t, b);
        } else if b !in bases {
          assert b in Listed(adj, id);
          assert Edge(adj, t, b);
        }
      }
    }
  }

  /** Lists `base` under `id`, creating the entry on first use; a base already listed is not repeated. */
  method AddBase(adj: StrictMap<Id, seq<Id>>, id: Id, base: Id)
    requires adj.Valid() && forall t :: t in adj.items ==> Distinct(adj.items[t])
    modifies adj
    ensures adj.Valid() && forall t :: t in adj.items ==> Distinct(adj.items[t])
    ensures adj.items == old(adj.items)[id := WithBase(Listed(old(adj.items), id), base)]
    ensures forall t, b :: Edge(adj.items, t, b) <==> Edge(old(adj.items), t, b) || (t == id && b == base)
  {
    if !adj.Has(id) {
      adj.Set(id, []);
    }
    var listed := adj.Get(id);
    if base !in listed {
      adj.Set(id, listed + [base]);
    } else {
      assert listed + [] == listed;
    }
  }

  /** The bases listed under `id` so far, none if it has no entry. */
  ghost function Listed(adj: map<Id, seq<Id>>, id: Id): seq<Id>
  {
    if id in adj then adj[id] else []
  }

  /** `listed` after `Set.add(base)`: `base` is appended unless already there. */
  ghost function WithBase(listed: seq<Id>, base: Id): seq<Id>
  {
    listed + (if base in listed then [] else [base])
  }

  /** `listed` after adding each of `bases` in turn. */
  ghost function Extended(listed: seq<Id>, bases: seq<Id>): seq<Id>
  {
    if |bases| == 0 then listed else WithBase(Extended(listed, bases[..|bases| - 1]), bases[|bases| - 1])
  }

  /** `adj` after listing each of `bases` under `id`; with no bases, no entry is created. */
  ghost function WithBases(adj: map<Id, seq<Id>>, id: Id, bases: seq<Id>): map<Id, seq<Id>>
  {
    if |bases| == 0 then adj else adj[id := Extended(Listed(adj, id), bases)]
  }

  /**
   * Adding bases keeps what was listed as a prefix, and the result holds
   * exactly what was listed and the bases added.
   */
  lemma {:induction false} ExtendedHolds(listed: seq<Id>, bases: seq<Id>)
    ensures listed <= Extended(listed, bases)
    ensures forall b :: b in Extended(listed, bases) <==> b in listed || b in bases
  {
    if |bases| > 0 {
      var init, last := bases[..|bases| - 1], bases[|bases| - 1];
      ExtendedHolds(listed, init);
      assert bases == init + [last];
    }
  }

  /** Adding bases to a list without repeats gives a list without repeats. */
  lemma {:induction false} ExtendedDistinct(listed: seq<Id>, bases: seq<Id>)
    requires Distinct(listed)
    ensures Distinct(Extended(listed, bases))
  {
    if |bases| > 0 {
      ExtendedDistinct(listed, bases[..|bases| - 1]);
    }
  }

  /**
   * Orders the records bases first. On success the output holds every id of
   * the list once, each with a record of the list carrying that id; every
   * declared base precedes the types declaring it; and what the first `k`
   * records reach comes before anything reached only from later ones: types
   * first reached from an earlier record precede those first reached only
   * from a later one.
   */
  method TopoSort(types: seq<TypeRecord>) returns (r: Result<StrictMap<Id, TypeRecord>, SortError>)
    ensures r.Ok? ==> r.value.Valid()
    ensures r.Ok? ==> forall k :: k in r.value.keys <==> HasId(types, k)
    ensures r.Ok? ==> IndexesRecords(types, r.value.items)
    ensures r.Ok? ==> BasesFirst(types, r.value.keys)
    ensures r.Ok? ==> PrefixStable(types, r.value.keys)
    ensures (r.Err? && r.error.UnknownReference?) <==> HasUnknownBase(types)
    ensures r.Err? && r.error.UnknownReference? ==> FirstUnknownBase(types, r.error.base)
    ensures HasCycle(types) ==> r.Err?
    ensures !HasUnknownBase(types) && !HasCycle(types) && NamesIdentify(types) ==> r.Ok?
  {
    var graph := IndexRecords(types);
    var indexed := IndexBases(types, graph);
    if indexed.Err? {
      return Err(indexed.error);
    }
    var adj := indexed.value;
    ghost var edges := adj.items;
    var v := new Visitor(types, graph, adj);
    for i := 0 to |types|
      invariant v.Valid() && v.visiting == {} && fresh(v.sorted)
      invariant v.types == types && v.graph == graph && v.adj == adj && adj.items == edges
      invariant forall y :: y in v.sorted.keys <==> ReachedFromFirst(types, i, y)
      invariant PrefixStable(types, v.sorted.keys)
    {
      ghost var before, keysBefore := v.visited, v.sorted.keys;
      var res := v.Visit(types[i], []);
      if res.Err? {
        EdgeCycleIsCycle(types, edges);
        return Err(res.error);
      }
      VisitStep(types, edges, i, before, v.visited, keysBefore, v.sorted.keys);
    }
    SortCovers(types, edges, v.sorted.keys, v.sorted.items);
    return Ok(v.sorted);
  }

  /** One top-level visit keeps the output bases-first and prefix-stable with respect to the records visited. */
  lemma VisitStep(types: seq<TypeRecord>, adj: map<Id, seq<Id>>, i: int,
                  before: set<Id>, after: set<Id>, keysBefore: seq<Id>, keysAfter: seq<Id>)
    requires 0 <= i < |types| && ListsBases(types, adj)
    requires (forall y :: y in before <==> y in keysBefore) && (forall y :: y in after <==> y in keysAfter)
    requires forall y :: y in keysBefore <==> ReachedFromFirst(types, i, y)
    requires PrefixStable(types, keysBefore)
    requires before <= after && types[i].id in after && keysBefore <= keysAfter
    requires Distinct(keysAfter) && EdgesFirst(adj, keysAfter)
    requires forall k :: k in after && k !in before ==> EdgeReaches(adj, types[i].id, k)
    ensures forall y :: y in keysAfter <==> ReachedFromFirst(types, i + 1, y)
    ensures PrefixStable(types, keysAfter)
  {
    EdgesFirstIsBasesFirst(types, adj, keysAfter);
    forall k | k in after && k !in before
      ensures Reaches(types, types[i].id, k)
    {
      EdgeReachesIsReaches(types, adj, types[i].id, k);
    }
    VisitCoversReach(types, i, before, after, keysAfter);
    VisitKeepsPrefixStable(types, i, keysBefore, keysAfter);
  }

  /** After visiting every record the output holds exactly the ids of the list, bases first. */
  lemma SortCovers(types: seq<TypeRecord>, adj: map<Id, seq<Id>>, keys: seq<Id>, items: map<Id, TypeRecord>)
    requires ListsBases(types, adj) && EdgesFirst(adj, keys) && Distinct(keys)
    requires forall y :: y in keys <==> ReachedFromFirst(types, |types|, y)
    requires IndexesRecords(types, items) && forall y :: y in keys <==> y in items
    ensures forall y :: y in keys <==> HasId(types, y)
    ensures BasesFirst(types, keys) && !HasCycle(types)
  {
    forall y | y in keys
      ensures HasId(types, y)
    {
      var j :| 0 <= j < |types| && types[j] == items[y];
    }
    forall y | HasId(types, y)
      ensures y in keys
    {
      var j :| 0 <= j < |types| && types[j].id == y;
      ReachesItself(types, y);
    }
    EdgesFirstIsBasesFirst(types, adj, keys);
    BasesFirstRulesOutCycles(types, keys);
  }
}
