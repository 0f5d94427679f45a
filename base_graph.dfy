/**
 * The inheritance relation that orders the type list: an edge from a type to
 * each base declared by an object or scalar record with that type's id.
 */
module BaseGraph {
  import opened SchemaTypes

  /** Some record of the list has id `x`. */
  ghost predicate HasId(types: seq<TypeRecord>, x: Id)
  {
    exists i :: 0 <= i < |types| && types[i].id == x
  }

  /** Some record with id `t` declares `b` among its bases. */
  ghost predicate DeclaresBase(types: seq<TypeRecord>, t: Id, b: Id)
  {
    exists i :: 0 <= i < |types| && types[i].id == t && b in BasesOf(types[i])
  }

  /** Some object or scalar record declares a base that no record of the list has as its id. */
  ghost predicate HasUnknownBase(types: seq<TypeRecord>)
  {
    exists i, b :: 0 <= i < |types| && b in BasesOf(types[i]) && !HasId(types, b)
  }

  /**
   * The `j`-th base of the `i`-th record is not an id of the list, while every
   * base of the records before it, and before it in that record, is.
   */
  ghost predicate UnknownBaseAt(types: seq<TypeRecord>, i: int, j: int)
  {
    && 0 <= i < |types| && 0 <= j < |BasesOf(types[i])| && !HasId(types, BasesOf(types[i])[j])
    && (forall i', b :: 0 <= i' < i && b in BasesOf(types[i']) ==> HasId(types, b))
    && (forall j' :: 0 <= j' < j ==> HasId(types, BasesOf(types[i])[j']))
  }

  /** `b` is the first unknown base met when reading the records, and their bases, in order. */
  ghost predicate FirstUnknownBase(types: seq<TypeRecord>, b: Id)
  {
    exists i, j :: UnknownBaseAt(types, i, j) && BasesOf(types[i])[j] == b
  }

  /** A chain of ids, each declaring the next as a base. */
  ghost predicate IsPath(types: seq<TypeRecord>, p: seq<Id>)
  {
    |p| >= 1 && forall i :: 0 <= i < |p| - 1 ==> DeclaresBase(types, p[i], p[i + 1])
  }

  /** `y` is `x` or one of its (transitive) bases. */
  ghost predicate Reaches(types: seq<TypeRecord>, x: Id, y: Id)
  {
    exists p :: IsPath(types, p) && p[0] == x && p[|p| - 1] == y
  }

  /** Some type is, transitively, its own base. */
  ghost predicate HasCycle(types: seq<TypeRecord>)
  {
    exists p :: IsPath(types, p) && |p| >= 2 && p[0] == p[|p| - 1]
  }

  /** Records that share a name share an id (type names are unique in a schema). */
  ghost predicate NamesIdentify(types: seq<TypeRecord>)
  {
    forall u, v :: u in types && v in types && u.name == v.name ==> u.id == v.id
  }

  ghost predicate Distinct(order: seq<Id>)
  {
    forall i, j :: 0 <= i < j < |order| ==> order[i] != order[j]
  }

  /** Every base declared for an id of `order` occurs earlier in `order`. */
  ghost predicate BasesFirst(types: seq<TypeRecord>, order: seq<Id>)
  {
    forall j, b :: 0 <= j < |order| && DeclaresBase(types, order[j], b) ==> b in order[..j]
  }

  /** `y` is reachable from one of the first `k` records of the list. */
  ghost predicate ReachedFromFirst(types: seq<TypeRecord>, k: int, y: Id)
  {
    exists j :: 0 <= j < k && j < |types| && Reaches(types, types[j].id, y)
  }

  /**
   * For every `k`, what the first `k` records reach forms a prefix of `order`: an id
   * reached only from later records never precedes one reached from earlier records.
   */
  ghost predicate PrefixStable(types: seq<TypeRecord>, order: seq<Id>)
  {
    forall k, a, b :: 0 <= k <= |types| && 0 <= a < b < |order| && ReachedFromFirst(types, k, order[b]) ==>
      ReachedFromFirst(types, k, order[a])
  }

  lemma ReachesItself(types: seq<TypeRecord>, x: Id)
    ensures Reaches(types, x, x)
  {
    assert IsPath(types, [x]);
  }

  /** Walking a path from an id of a bases-first order only moves to earlier positions. */
  lemma {:induction false} PathGoesBack(types: seq<TypeRecord>, order: seq<Id>, p: seq<Id>, j: int)
    requires BasesFirst(types, order) && IsPath(types, p)
    requires 0 <= j < |order| && order[j] == p[0]
    ensures exists k :: 0 <= k <= j && order[k] == p[|p| - 1] && (|p| >= 2 ==> k < j)
    decreases |p|
  {
    if |p| >= 2 {
      assert DeclaresBase(types, order[j], p[1]);
      assert p[1] in order[..j];
      var j1 :| 0 <= j1 < j && order[j1] == p[1];
      var rest := p[1..];
      forall i | 0 <= i < |rest| - 1
        ensures DeclaresBase(types, rest[i], rest[i + 1])
      {
        assert rest[i] == p[i + 1] && rest[i + 1] == p[i + 2];
      }
      PathGoesBack(types, order, rest, j1);
    }
  }

  /** A list that some order puts bases first, covering every id, has no inheritance cycle. */
  lemma BasesFirstRulesOutCycles(types: seq<TypeRecord>, order: seq<Id>)
    requires BasesFirst(types, order) && Distinct(order)
    requires forall x :: HasId(types, x) ==> x in order
    ensures !HasCycle(types)
  {
    forall p | IsPath(types, p) && |p| >= 2
      ensures p[0] != p[|p| - 1]
    {
      assert DeclaresBase(types, p[0], p[1]);
      assert HasId(types, p[0]);
      var j :| 0 <= j < |order| && order[j] == p[0];
      PathGoesBack(types, order, p, j);
    }
  }

  /** A bases-first order is closed under reachability. */
  lemma {:induction false} BasesFirstIsClosed(types: seq<TypeRecord>, order: seq<Id>, x: Id, y: Id)
    requires BasesFirst(types, order) && x in order && Reaches(types, x, y)
    ensures y in order
  {
    var p :| IsPath(types, p) && p[0] == x && p[|p| - 1] == y;
    var j :| 0 <= j < |order| && order[j] == x;
    PathGoesBack(types, order, p, j);
  }

  /** The records of `types[..i + 1]` declare what those of `types[..i]` do, plus the bases of `types[i]`. */
  lemma DeclaresBaseOneMore(types: seq<TypeRecord>, i: int, t: Id, b: Id)
    requires 0 <= i < |types|
    ensures DeclaresBase(types[..i + 1], t, b) <==>
      DeclaresBase(types[..i], t, b) || (t == types[i].id && b in BasesOf(types[i]))
  {
    var pre, more := types[..i], types[..i + 1];
    if DeclaresBase(more, t, b) {
      var j :| 0 <= j < |more| && more[j].id == t && b in BasesOf(more[j]);
      if j < i {
        assert pre[j] == more[j];
      }
    }
    if DeclaresBase(pre, t, b) {
      var j :| 0 <= j < |pre| && pre[j].id == t && b in BasesOf(pre[j]);
      assert more[j] == pre[j];
    }
    if t == types[i].id && b in BasesOf(types[i]) {
      assert more[i] == types[i];
    }
  }

  lemma ReachedFromFirstGrows(types: seq<TypeRecord>, k: int, k': int, y: Id)
    ensures k <= k' && ReachedFromFirst(types, k, y) ==> ReachedFromFirst(types, k', y)
  {
  }

  /**
   * After visiting the `i`-th record, the visited ids are exactly those reached
   * from the first `i + 1` records.
   */
  lemma VisitCoversReach(types: seq<TypeRecord>, i: int, before: set<Id>, after: set<Id>, order: seq<Id>)
    requires 0 <= i < |types|
    requires forall y :: y in before <==> ReachedFromFirst(types, i, y)
    requires before <= after && types[i].id in after
    requires forall y :: y in after && y !in before ==> Reaches(types, types[i].id, y)
    requires BasesFirst(types, order) && forall y :: y in after <==> y in order
    ensures forall y :: y in after <==> ReachedFromFirst(types, i + 1, y)
  {
    forall y | ReachedFromFirst(types, i + 1, y)
      ensures y in after
    {
      var j :| 0 <= j < i + 1 && j < |types| && Reaches(types, types[j].id, y);
      if j == i {
        BasesFirstIsClosed(types, order, types[i].id, y);
      } else {
        assert ReachedFromFirst(types, i, y);
      }
    }
    forall y | y in after
      ensures ReachedFromFirst(types, i + 1, y)
    {
      if y in before {
        ReachedFromFirstGrows(types, i, i + 1, y);
      }
    }
  }

  /** Appending what the `i`-th record newly reaches keeps every reach set a prefix. */
  lemma VisitKeepsPrefixStable(types: seq<TypeRecord>, i: int, before: seq<Id>, after: seq<Id>)
    requires 0 <= i < |types|
    requires PrefixStable(types, before) && before <= after && Distinct(after)
    requires forall y :: y in before <==> ReachedFromFirst(types, i, y)
    requires forall y :: y in after <==> ReachedFromFirst(types, i + 1, y)
    ensures PrefixStable(types, after)
  {
    forall k, a, b | 0 <= k <= |types| && 0 <= a < b < |after| && ReachedFromFirst(types, k, after[b])
      ensures ReachedFromFirst(types, k, after[a])
    {
      if b < |before| {
        assert after[a] == before[a] && after[b] == before[b];
      } else {
        var y := after[b];
        forall c | 0 <= c < |before|
          ensures before[c] != y
        {
          assert before[c] == after[c];
        }
        ReachedFromFirstGrows(types, k, i, y);
        assert after[a] in after;
        ReachedFromFirstGrows(types, i + 1, k, after[a]);
      }
    }
  }

  // The same relation read off an adjacency map: the form the sort itself walks.

  ghost predicate Edge(adj: map<Id, seq<Id>>, t: Id, b: Id)
  {
    t in adj && b in adj[t]
  }

  /** `adj` lists exactly the declared bases of each id. */
  ghost predicate ListsBases(types: seq<TypeRecord>, adj: map<Id, seq<Id>>)
  {
    forall t, b :: Edge(adj, t, b) <==> DeclaresBase(types, t, b)
  }

  ghost predicate IsEdgePath(adj: map<Id, seq<Id>>, p: seq<Id>)
  {
    |p| >= 1 && forall i :: 0 <= i < |p| - 1 ==> Edge(adj, p[i], p[i + 1])
  }

  ghost predicate EdgeReaches(adj: map<Id, seq<Id>>, x: Id, y: Id)
  {
    exists p :: IsEdgePath(adj, p) && p[0] == x && p[|p| - 1] == y
  }

  ghost predicate HasEdgeCycle(adj: map<Id, seq<Id>>)
  {
    exists p :: IsEdgePath(adj, p) && |p| >= 2 && p[0] == p[|p| - 1]
  }

  ghost predicate EdgesFirst(adj: map<Id, seq<Id>>, order: seq<Id>)
  {
    forall j, b :: 0 <= j < |order| && Edge(adj, order[j], b) ==> b in order[..j]
  }

  lemma EdgePathsArePaths(types: seq<TypeRecord>, adj: map<Id, seq<Id>>, p: seq<Id>)
    requires ListsBases(types, adj)
    ensures IsEdgePath(adj, p) <==> IsPath(types, p)
  {
    if IsEdgePath(adj, p) {
      forall i | 0 <= i < |p| - 1
        ensures DeclaresBase(types, p[i], p[i + 1])
      {
        assert Edge(adj, p[i], p[i + 1]);
      }
    }
    if IsPath(types, p) {
      forall i | 0 <= i < |p| - 1
        ensures Edge(adj, p[i], p[i + 1])
      {
        assert DeclaresBase(types, p[i], p[i + 1]);
      }
    }
  }

  lemma EdgeReachesIsReaches(types: seq<TypeRecord>, adj: map<Id, seq<Id>>, x: Id, y: Id)
    requires ListsBases(types, adj)
    ensures EdgeReaches(adj, x, y) <==> Reaches(types, x, y)
  {
    if EdgeReaches(adj, x, y) {
      var p :| IsEdgePath(adj, p) && p[0] == x && p[|p| - 1] == y;
      EdgePathsArePaths(types, adj, p);
    }
    if Reaches(types, x, y) {
      var p :| IsPath(types, p) && p[0] == x && p[|p| - 1] == y;
      EdgePathsArePaths(types, adj, p);
    }
  }

  lemma EdgeCycleIsCycle(types: seq<TypeRecord>, adj: map<Id, seq<Id>>)
    requires ListsBases(types, adj)
    ensures HasEdgeCycle(adj) <==> HasCycle(types)
  {
    if HasEdgeCycle(adj) {
      var p :| IsEdgePath(adj, p) && |p| >= 2 && p[0] == p[|p| - 1];
      EdgePathsArePaths(types, adj, p);
    }
    if HasCycle(types) {
      var p :| IsPath(types, p) && |p| >= 2 && p[0] == p[|p| - 1];
      EdgePathsArePaths(types, adj, p);
    }
  }

  lemma EdgesFirstIsBasesFirst(types: seq<TypeRecord>, adj: map<Id, seq<Id>>, order: seq<Id>)
    requires ListsBases(types, adj)
    ensures EdgesFirst(adj, order) <==> BasesFirst(types, order)
  {
  }

  lemma EdgeReachesItself(adj: map<Id, seq<Id>>, x: Id)
    ensures EdgeReaches(adj, x, x)
  {
    assert IsEdgePath(adj, [x]);
  }

  lemma EdgeReachesThroughBase(adj: map<Id, seq<Id>>, x: Id, b: Id, y: Id)
    requires Edge(adj, x, b) && EdgeReaches(adj, b, y)
    ensures EdgeReaches(adj, x, y)
  {
    var p :| IsEdgePath(adj, p) && p[0] == b && p[|p| - 1] == y;
    var q := [x] + p;
    forall i | 0 <= i < |q| - 1
      ensures Edge(adj, q[i], q[i + 1])
    {
      if i > 0 {
        assert q[i] == p[i - 1] && q[i + 1] == p[i];
      }
    }
    assert IsEdgePath(adj, q);
  }

  /** An id all of whose listed bases are already placed may be placed next. */
  lemma EdgesFirstAppend(adj: map<Id, seq<Id>>, order: seq<Id>, x: Id)
    requires EdgesFirst(adj, order)
    requires forall b :: Edge(adj, x, b) ==> b in order
    ensures EdgesFirst(adj, order + [x])
  {
    var next := order + [x];
    forall j, b | 0 <= j < |next| && Edge(adj, next[j], b)
      ensures b in next[..j]
    {
      if j < |order| {
        assert next[..j] == order[..j];
      } else {
        assert next[..j] == order;
      }
    }
  }

  /** An id met again on a chain of ids, each listing the next as a base, closes a cycle. */
  lemma RepeatedIdIsEdgeCycle(adj: map<Id, seq<Id>>, chain: seq<Id>, x: Id, k: int)
    requires forall i :: 0 <= i < |chain| - 1 ==> Edge(adj, chain[i], chain[i + 1])
    requires 0 <= k < |chain| && Edge(adj, chain[|chain| - 1], x)
    requires chain[k] == x
    ensures HasEdgeCycle(adj)
  {
    var p := chain[k..] + [x];
    forall i | 0 <= i < |p| - 1
      ensures Edge(adj, p[i], p[i + 1])
    {
      if i < |p| - 2 {
        assert p[i] == chain[k + i] && p[i + 1] == chain[k + i + 1];
      }
    }
    assert IsEdgePath(adj, p);
  }

  /** Two lists whose records agree, position by position, on id, name and bases. */
  ghost predicate SameShape(a: seq<TypeRecord>, b: seq<TypeRecord>)
  {
    |a| == |b| && forall i :: 0 <= i < |a| ==>
      a[i].id == b[i].id && a[i].name == b[i].name && BasesOf(a[i]) == BasesOf(b[i])
  }

  /** Ids, names and bases are all the ordering looks at. */
  lemma ShapeDecides(a: seq<TypeRecord>, b: seq<TypeRecord>)
    requires SameShape(a, b)
    ensures forall x :: HasId(a, x) <==> HasId(b, x)
    ensures forall t, x :: DeclaresBase(a, t, x) <==> DeclaresBase(b, t, x)
    ensures HasUnknownBase(a) <==> HasUnknownBase(b)
    ensures forall x :: FirstUnknownBase(a, x) <==> FirstUnknownBase(b, x)
    ensures HasCycle(a) <==> HasCycle(b)
    ensures NamesIdentify(a) <==> NamesIdentify(b)
    ensures forall order :: BasesFirst(a, order) <==> BasesFirst(b, order)
    ensures forall order :: PrefixStable(a, order) <==> PrefixStable(b, order)
  {
    SameShapeHasIds(a, b);
    SameShapeHasIds(b, a);
    SameShapeFirstUnknown(a, b);
    SameShapeFirstUnknown(b, a);
    SameShapeDeclares(a, b);
    SameShapeDeclares(b, a);
    if NamesIdentify(a) {
      SameShapeNames(a, b);
    }
    if NamesIdentify(b) {
      SameShapeNames(b, a);
    }
    SameShapeReach(a, b);
    forall order
      ensures BasesFirst(a, order) <==> BasesFirst(b, order)
    {
    }
    forall order
      ensures PrefixStable(a, order) <==> PrefixStable(b, order)
    {
    }
  }

  lemma SameShapeReach(a: seq<TypeRecord>, b: seq<TypeRecord>)
    requires SameShape(a, b)
    requires forall t, x :: DeclaresBase(a, t, x) <==> DeclaresBase(b, t, x)
    ensures HasCycle(a) <==> HasCycle(b)
    ensures forall k, y :: ReachedFromFirst(a, k, y) <==> ReachedFromFirst(b, k, y)
  {
    forall p
      ensures IsPath(a, p) <==> IsPath(b, p)
    {
    }
    if HasCycle(a) {
      var p :| IsPath(a, p) && |p| >= 2 && p[0] == p[|p| - 1];
      assert IsPath(b, p);
    }
    if HasCycle(b) {
      var p :| IsPath(b, p) && |p| >= 2 && p[0] == p[|p| - 1];
      assert IsPath(a, p);
    }
    forall k, y
      ensures ReachedFromFirst(a, k, y) <==> ReachedFromFirst(b, k, y)
    {
      if ReachedFromFirst(a, k, y) {
        var j :| 0 <= j < k && j < |a| && Reaches(a, a[j].id, y);
        var p :| IsPath(a, p) && p[0] == a[j].id && p[|p| - 1] == y;
        assert IsPath(b, p) && p[0] == b[j].id;
      }
      if ReachedFromFirst(b, k, y) {
        var j :| 0 <= j < k && j < |b| && Reaches(b, b[j].id, y);
        var p :| IsPath(b, p) && p[0] == b[j].id && p[|p| - 1] == y;
        assert IsPath(a, p) && p[0] == a[j].id;
      }
    }
  }

  lemma SameShapeHasIds(a: seq<TypeRecord>, b: seq<TypeRecord>)
    requires SameShape(a, b)
    ensures forall x :: HasId(a, x) ==> HasId(b, x)
    ensures HasUnknownBase(a) ==> HasUnknownBase(b)
  {
    forall x | HasId(a, x)
      ensures HasId(b, x)
    {
      var i :| 0 <= i < |a| && a[i].id == x;
      assert b[i].id == x;
    }
    if HasUnknownBase(a) {
      var i, x :| 0 <= i < |a| && x in BasesOf(a[i]) && !HasId(a, x);
      assert x in BasesOf(b[i]);
      forall j | 0 <= j < |b|
        ensures b[j].id != x
      {
        assert a[j].id == b[j].id;
      }
      assert !HasId(b, x);
    }
  }

  lemma SameShapeFirstUnknown(a: seq<TypeRecord>, b: seq<TypeRecord>)
    requires SameShape(a, b) && forall x :: HasId(a, x) <==> HasId(b, x)
    ensures forall x :: FirstUnknownBase(a, x) ==> FirstUnknownBase(b, x)
  {
    forall x | FirstUnknownBase(a, x)
      ensures FirstUnknownBase(b, x)
    {
      var i, j :| UnknownBaseAt(a, i, j) && BasesOf(a[i])[j] == x;
      forall i', y | 0 <= i' < i && y in BasesOf(b[i'])
        ensures HasId(b, y)
      {
        assert y in BasesOf(a[i']);
      }
      assert UnknownBaseAt(b, i, j);
    }
  }

  lemma SameShapeDeclares(a: seq<TypeRecord>, b: seq<TypeRecord>)
    requires SameShape(a, b)
    ensures forall t, x :: DeclaresBase(a, t, x) ==> DeclaresBase(b, t, x)
  {
    forall t, x | DeclaresBase(a, t, x)
      ensures DeclaresBase(b, t, x)
    {
      var i :| 0 <= i < |a| && a[i].id == t && x in BasesOf(a[i]);
      assert b[i].id == t && x in BasesOf(b[i]);
    }
  }

  lemma SameShapeNames(a: seq<TypeRecord>, b: seq<TypeRecord>)
    requires SameShape(a, b) && NamesIdentify(a)
    ensures NamesIdentify(b)
  {
    forall u, v | u in b && v in b && u.name == v.name
      ensures u.id == v.id
    {
      var i :| 0 <= i < |b| && b[i] == u;
      var j :| 0 <= j < |b| && b[j] == v;
      assert a[i] in a && a[j] in a;
    }
  }
}
