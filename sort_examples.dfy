/** Two small schemas run through the sort: a shallow hierarchy and a two-type cycle. */
module SortExamples {
  import opened Wrappers
  import opened SchemaTypes
  import opened BaseGraph
  import opened TopoSorting

  /** An object type with no pointers and the given bases. */
  function Plain(id: Id, name: string, bases: seq<Id>): (t: TypeRecord)
    ensures t.ObjectType? && t.id == id && t.name == name && BasesOf(t) == bases
  {
    ObjectType(id, name, false, bases, [], [], [], [], [], Groups([]))
  }

  /** `Animal`, then `Cat` and `Dog`, both extending `Animal`. */
  function Zoo(): seq<TypeRecord>
  {
    [Plain("a", "Animal", []), Plain("c", "Cat", ["a"]), Plain("d", "Dog", ["a"])]
  }

  /** `A` extends `B` and `B` extends `A`. */
  function Loop(): seq<TypeRecord>
  {
    [Plain("x", "A", ["y"]), Plain("y", "B", ["x"])]
  }

  lemma ZooIds(k: Id)
    ensures HasId(Zoo(), k) <==> k == "a" || k == "c" || k == "d"
  {
    var zoo := Zoo();
    assert zoo[0].id == "a" && zoo[1].id == "c" && zoo[2].id == "d";
  }

  /** In the zoo only `Cat` and `Dog` declare a base, and it is `Animal`. */
  lemma ZooBases(t: Id, b: Id)
    ensures DeclaresBase(Zoo(), t, b) ==> (t == "c" || t == "d") && b == "a"
  {
    var zoo := Zoo();
    if DeclaresBase(zoo, t, b) {
      var i :| 0 <= i < 3 && zoo[i].id == t && b in BasesOf(zoo[i]);
    }
  }

  /** Any order of the zoo that puts `Animal` before the rest is bases first. */
  lemma ZooAnimalFirst(order: seq<Id>)
    requires |order| >= 1 && order[0] == "a" && "a" !in order[1..]
    ensures BasesFirst(Zoo(), order)
  {
    forall j, b | 0 <= j < |order| && DeclaresBase(Zoo(), order[j], b)
      ensures b in order[..j]
    {
      ZooBases(order[j], b);
      assert j != 0;
      assert order[..j][0] == "a";
    }
  }

  lemma ZooNames()
    ensures NamesIdentify(Zoo())
  {
  }

  lemma ZooIsSortable()
    ensures !HasUnknownBase(Zoo()) && NamesIdentify(Zoo()) && !HasCycle(Zoo())
  {
    var zoo := Zoo();
    ZooIds("a");
    forall i, b | 0 <= i < |zoo| && b in BasesOf(zoo[i])
      ensures HasId(zoo, b)
    {
      ZooBases(zoo[i].id, b);
    }
    ZooNames();
    ZooAnimalFirst(["a", "c", "d"]);
    forall x | HasId(zoo, x)
      ensures x in ["a", "c", "d"]
    {
      ZooIds(x);
    }
    BasesFirstRulesOutCycles(zoo, ["a", "c", "d"]);
  }

  /** What the first record of the zoo reaches, and what the first two reach. */
  lemma ZooReach(y: Id)
    ensures ReachedFromFirst(Zoo(), 1, y) ==> y == "a"
    ensures ReachedFromFirst(Zoo(), 2, y) ==> y == "a" || y == "c"
  {
    var zoo := Zoo();
    if ReachedFromFirst(zoo, 2, y) {
      var j :| 0 <= j < 2 && Reaches(zoo, zoo[j].id, y);
      if j == 0 {
        ZooAnimalFirst(["a"]);
        BasesFirstIsClosed(zoo, ["a"], "a", y);
      } else {
        ZooAnimalFirst(["a", "c"]);
        BasesFirstIsClosed(zoo, ["a", "c"], "c", y);
      }
    }
    if ReachedFromFirst(zoo, 1, y) {
      var j :| 0 <= j < 1 && Reaches(zoo, zoo[j].id, y);
      ZooAnimalFirst(["a"]);
      BasesFirstIsClosed(zoo, ["a"], "a", y);
    }
  }

  /** A list without repeats is no longer than any set holding all its entries. */
  lemma {:induction false} DistinctFitsIn(keys: seq<Id>, s: set<Id>)
    requires Distinct(keys) && forall k :: k in keys ==> k in s
    ensures |keys| <= |s|
    decreases |keys|
  {
    if keys != [] {
      var rest := keys[1..];
      forall k | k in rest
        ensures k in s - {keys[0]}
      {
        var i :| 0 <= i < |rest| && rest[i] == k;
        assert keys[i + 1] == k;
      }
      assert Distinct(rest) by {
        forall i, j | 0 <= i < j < |rest|
          ensures rest[i] != rest[j]
        {
          assert rest[i] == keys[i + 1] && rest[j] == keys[j + 1];
        }
      }
      DistinctFitsIn(rest, s - {keys[0]});
    }
  }

  /** Only `Animal` may open a prefix-stable order of the zoo, and only `Cat` may follow it. */
  lemma ZooPrefix(keys: seq<Id>, ia: int, ic: int)
    requires Distinct(keys) && PrefixStable(Zoo(), keys)
    requires 0 <= ia < |keys| && keys[ia] == "a" && 0 <= ic < |keys| && keys[ic] == "c"
    ensures ia == 0 && ic == 1
  {
    var zoo := Zoo();
    ReachesItself(zoo, "a");
    ReachesItself(zoo, "c");
    assert ReachedFromFirst(zoo, 1, keys[ia]) && ReachedFromFirst(zoo, 2, keys[ic]) by {
      assert zoo[0].id == "a" && zoo[1].id == "c";
    }
    forall a | 0 <= a < ia + 1
      ensures keys[a] == "a"
    {
      ZooReach(keys[a]);
    }
    assert |keys| >= 2 ==> keys[0] != keys[1];
    forall a | 0 <= a < ic
      ensures keys[a] == "a"
    {
      ZooReach(keys[a]);
    }
  }

  /** The only order meeting the sort's promises on the zoo is the input order. */
  lemma ZooOrder(keys: seq<Id>)
    requires Distinct(keys) && forall k :: k in keys <==> k == "a" || k == "c" || k == "d"
    requires PrefixStable(Zoo(), keys)
    ensures keys == ["a", "c", "d"]
  {
    assert "a" in keys && "c" in keys && "d" in keys;
    var ia :| 0 <= ia < |keys| && keys[ia] == "a";
    var ic :| 0 <= ic < |keys| && keys[ic] == "c";
    var id :| 0 <= id < |keys| && keys[id] == "d";
    ZooPrefix(keys, ia, ic);
    assert keys[2] == "d" by {
      assert keys[2] in keys;
    }
    DistinctFitsIn(keys, {"a", "c", "d"});
  }

  /** Sorting the zoo keeps the input order: the base first, then its subtypes as given. */
  method SortZoo() returns (r: Result<seq<Id>, SortError>)
    ensures r == Ok(["a", "c", "d"])
  {
    ZooIsSortable();
    var sorted := TopoSort(Zoo());
    forall k
      ensures k in sorted.value.keys <==> k == "a" || k == "c" || k == "d"
    {
      ZooIds(k);
    }
    ZooOrder(sorted.value.keys);
    return Ok(sorted.value.keys);
  }

  lemma LoopIds(k: Id)
    ensures HasId(Loop(), k) <==> k == "x" || k == "y"
  {
    var loop := Loop();
    assert loop[0].id == "x" && loop[1].id == "y";
  }

  lemma LoopBasesKnown()
    ensures !HasUnknownBase(Loop())
  {
    var loop := Loop();
    forall i, b | 0 <= i < |loop| && b in BasesOf(loop[i])
      ensures HasId(loop, b)
    {
      LoopIds(b);
    }
  }

  lemma LoopIsCycle()
    ensures HasCycle(Loop())
  {
    var loop := Loop();
    assert DeclaresBase(loop, "x", "y") by {
      assert loop[0].id == "x" && "y" in BasesOf(loop[0]);
    }
    assert DeclaresBase(loop, "y", "x") by {
      assert loop[1].id == "y" && "x" in BasesOf(loop[1]);
    }
    assert IsPath(loop, ["x", "y", "x"]);
  }

  /** Two types extending each other always stop the sort with a cycle. */
  method SortLoop() returns (r: Result<seq<Id>, SortError>)
    ensures r.Err? && r.error.DependencyCycle?
  {
    LoopBasesKnown();
    LoopIsCycle();
    var sorted := TopoSort(Loop());
    return Err(sorted.error);
  }
}
