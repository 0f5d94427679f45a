/**
 * The post-processing of the introspected type list as a whole: every record
 * is remapped, `std::number` is appended, and the result is ordered bases first.
 */
module Normalize {
  import opened Wrappers
  import opened SchemaTypes
  import opened StrictMaps
  import opened BaseGraph
  import opened Remap
  import opened TopoSorting

  /** The remap changes no id, name or base, so it leaves the ordering problem as it was. */
  lemma RemapKeepsShape(types: seq<TypeRecord>, remapped: seq<TypeRecord>)
    requires forall i :: 0 <= i < |types| ==> HasRawExclusives(types[i])
    requires |remapped| == |types| + 1 && remapped[|types|] == NumberType
    requires forall i :: 0 <= i < |types| ==> remapped[i] == Remapped(types[i])
    ensures SameShape(remapped, types + [NumberType])
  {
  }

  /** The ids of the remapped list are the input's and `std::number`'s. */
  lemma RemappedIds(types: seq<TypeRecord>, remapped: seq<TypeRecord>)
    requires SameShape(remapped, types + [NumberType])
    ensures forall k :: HasId(remapped, k) <==> HasId(types, k) || k == NumberId
  {
    var plain := types + [NumberType];
    SameShapeHasIds(remapped, plain);
    SameShapeHasIds(plain, remapped);
    forall k
      ensures HasId(plain, k) <==> HasId(types, k) || k == NumberId
    {
      if HasId(plain, k) {
        var j :| 0 <= j < |plain| && plain[j].id == k;
        if j < |types| {
          assert types[j].id == k;
        }
      }
      if HasId(types, k) {
        var j :| 0 <= j < |types| && types[j].id == k;
        assert plain[j].id == k;
      }
      assert plain[|types|].id == NumberId;
    }
  }

  /** A record of the remapped list is `std::number` or the remap of an input record. */
  lemma RemappedRecord(types: seq<TypeRecord>, remapped: seq<TypeRecord>, t: TypeRecord)
    requires forall i :: 0 <= i < |types| ==> HasRawExclusives(types[i])
    requires |remapped| == |types| + 1 && remapped[|types|] == NumberType
    requires forall i :: 0 <= i < |types| ==> remapped[i] == Remapped(types[i])
    requires t in remapped
    ensures RemappedOrNumber(types, t)
  {
    var j :| 0 <= j < |remapped| && remapped[j] == t;
    if j < |types| {
      assert t == Remapped(types[j]);
    }
  }

  /** `t` is `std::number` or the remapped form of one of the input records. */
  ghost predicate RemappedOrNumber(types: seq<TypeRecord>, t: TypeRecord)
    requires forall i :: 0 <= i < |types| ==> HasRawExclusives(types[i])
  {
    t == NumberType || exists i :: 0 <= i < |types| && t == Remapped(types[i])
  }

  /** The sort's failures on the remapped list are its failures on the input with `std::number` appended. */
  lemma RemappedFailures(types: seq<TypeRecord>, remapped: seq<TypeRecord>)
    requires forall i :: 0 <= i < |types| ==> HasRawExclusives(types[i])
    requires |remapped| == |types| + 1 && remapped[|types|] == NumberType
    requires forall i :: 0 <= i < |types| ==> remapped[i] == Remapped(types[i])
    ensures HasUnknownBase(remapped) <==> HasUnknownBase(types + [NumberType])
    ensures forall b :: FirstUnknownBase(remapped, b) <==> FirstUnknownBase(types + [NumberType], b)
    ensures HasCycle(remapped) <==> HasCycle(types + [NumberType])
    ensures NamesIdentify(remapped) <==> NamesIdentify(types + [NumberType])
  {
    RemapKeepsShape(types, remapped);
    ShapeDecides(remapped, types + [NumberType]);
  }

  /**
   * Remaps the records, appends `std::number` and sorts. Every id of the
   * input, and `std::number`'s, comes out once, bases first, and types first
   * reached from an earlier record precede those first reached only from a
   * later one; each id carries its remapped record or `std::number` itself. An
   * unknown-reference failure names the first unknown base of the input with
   * `std::number` appended, and a cycle there forces a failure.
   */
  method NormalizeTypes(types: seq<TypeRecord>) returns (r: Result<StrictMap<Id, TypeRecord>, SortError>)
    requires forall i :: 0 <= i < |types| ==> HasRawExclusives(types[i])
    ensures r.Ok? ==> r.value.Valid()
    ensures r.Ok? ==> forall k :: k in r.value.keys <==> HasId(types, k) || k == NumberId
    ensures r.Ok? ==> forall k :: k in r.value.items ==>
                        r.value.items[k].id == k && RemappedOrNumber(types, r.value.items[k])
    ensures r.Ok? ==> BasesFirst(types + [NumberType], r.value.keys)
    ensures r.Ok? ==> PrefixStable(types + [NumberType], r.value.keys)
    ensures (r.Err? && r.error.UnknownReference?) <==> HasUnknownBase(types + [NumberType])
    ensures r.Err? && r.error.UnknownReference? ==> FirstUnknownBase(types + [NumberType], r.error.base)
    ensures HasCycle(types + [NumberType]) ==> r.Err?
    ensures (!HasUnknownBase(types + [NumberType]) && !HasCycle(types + [NumberType]) &&
             NamesIdentify(types + [NumberType])) ==> r.Ok?
  {
    var remapped := RemapTypes(types);
    RemappedFailures(types, remapped);
    r := TopoSort(remapped);
    if r.Ok? {
      RemapKeepsShape(types, remapped);
      RemappedIds(types, remapped);
      ShapeDecides(remapped, types + [NumberType]);
      forall k | k in r.value.items
        ensures RemappedOrNumber(types, r.value.items[k])
      {
        RemappedRecord(types, remapped, r.value.items[k]);
      }
    }
  }
}
