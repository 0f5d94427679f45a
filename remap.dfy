/**
 * The remap pass run over the introspected type list before ordering:
 * numeric scalars and sequences are cast to `std::number`, range elements are
 * remapped through the numeric table, object exclusives are resolved into
 * groups, and `std::number` itself is appended.
 */
module Remap {
  import opened Wrappers
  import opened SchemaTypes
  import opened ExclusiveTargets

  /** An object type still carries the raw constraint targets the query delivered. */
  predicate HasRawExclusives(t: TypeRecord)
  {
    t.ObjectType? ==> t.exclusives.RawTargets?
  }

  /** A numeric id mapped through the table, or left alone when the table has no entry. */
  function MapNumericId(id: Id): (r: Id)
    ensures id in TypeMapping ==> r == NumberId
    ensures id !in TypeMapping ==> r == id
  {
    if id in TypeMapping then TypeMapping[id].id else id
  }

  /** One iteration of the remap loop, applied to one record. */
  function Remapped(t: TypeRecord): (r: TypeRecord)
    requires HasRawExclusives(t)
    ensures r.id == t.id && r.name == t.name && BasesOf(r) == BasesOf(t)
    ensures !HasRawExclusives(r) <==> t.ObjectType?
  {
    match t
    case ScalarType(_, _, _, _, _, _, _, _) =>
      var mapped := if t.id in TypeMapping then t.(castType := Some(TypeMapping[t.id].id)) else t;
      if t.isSeq then mapped.(castType := Some(NumberType.id)) else mapped
    case RangeType(_, _, _, _) =>
      t.(rangeElementId := MapNumericId(t.rangeElementId))
    case ObjectType(_, _, _, _, _, _, _, _, _, _) =>
      t.(exclusives := Groups(ExclusiveGroups(t.exclusives.targets, PointerIndex(t.pointers))))
    case _ => t
  }

  /** The remap loop over the whole list, followed by `types.push(numberType)`. */
  method RemapTypes(types: seq<TypeRecord>) returns (result: seq<TypeRecord>)
    requires forall i :: 0 <= i < |types| ==> HasRawExclusives(types[i])
    ensures |result| == |types| + 1
    ensures forall i :: 0 <= i < |types| ==> result[i] == Remapped(types[i])
    ensures result[|types|] == NumberType
  {
    result := types;
    for i := 0 to |result|
      invariant |result| == |types|
      invariant forall j :: 0 <= j < i ==> result[j] == Remapped(types[j])
      invariant forall j :: i <= j < |types| ==> result[j] == types[j]
    {
      var t := result[i];
      match t {
        case ScalarType(_, _, _, _, _, _, _, _) =>
          if t.id in TypeMapping {
            t := t.(castType := Some(TypeMapping[t.id].id));
          }
          if t.isSeq {
            t := t.(castType := Some(NumberType.id));
          }
        case RangeType(_, _, _, _) =>
          t := t.(rangeElementId := MapNumericId(t.rangeElementId));
        case ObjectType(_, _, _, _, _, _, _, _, _, _) =>
          var ptrs := BuildPointerIndex(t.pointers);
          var groups := ResolveExclusives(ptrs, t.exclusives.targets);
          t := t.(exclusives := Groups(groups));
        case _ =>
      }
      result := result[i := t];
    }
    result := result + [NumberType];
  }

  /**
   * A scalar ends with `std::number` as its cast type exactly when its id is one of the
   * five numeric built-ins or it is a sequence; otherwise its cast type is untouched.
   * Nothing else about it changes.
   */
  lemma ScalarCastRule(t: TypeRecord)
    requires t.ScalarType?
    ensures Remapped(t).ScalarType?
    ensures Remapped(t).castType == if t.id in TypeMapping || t.isSeq then Some(NumberId) else t.castType
    ensures Remapped(t) == t.(castType := Remapped(t).castType)
  {
  }

  /** A range's element id is mapped to `std::number` when it is numeric, and kept otherwise. */
  lemma RangeElementRule(t: TypeRecord)
    requires t.RangeType?
    ensures Remapped(t) == t.(rangeElementId := if t.rangeElementId in TypeMapping then NumberId else t.rangeElementId)
  {
  }

  /** Arrays, tuples and unknown types pass through the remap unchanged. */
  lemma OtherKindsUnchanged(t: TypeRecord)
    requires t.ArrayType? || t.TupleType? || t.UnknownType?
    ensures Remapped(t) == t
  {
  }

  /**
   * An object keeps everything but its exclusives, which become the groups resolved
   * against its own pointers; every group names owned pointers only.
   */
  lemma ObjectExclusivesRule(t: TypeRecord)
    requires t.ObjectType? && t.exclusives.RawTargets?
    ensures Remapped(t) == t.(exclusives := Groups(ExclusiveGroups(t.exclusives.targets, PointerIndex(t.pointers))))
    ensures forall g :: g in Remapped(t).exclusives.groups ==> IsOwnedGroup(g, PointerIndex(t.pointers))
  {
    ExclusiveGroupsAreOwned(t.exclusives.targets, PointerIndex(t.pointers));
  }
}
