/**
 * The introspected schema types of the query builder's reflection layer:
 * pointers, backlinks and the six kinds of type record, plus the fixed
 * numeric remapping table.
 */
module SchemaTypes {
  import opened Wrappers

  /** A type or pointer identifier (a UUID in its textual form). */
  type Id = string

  datatype Cardinality = One | AtMostOne | AtLeastOne | Many

  datatype PointerKind = Link | Property

  /** A property of a link, as the introspection query delivers it (its name starts with `@`). */
  datatype LinkProperty = LinkProperty(
    card: Cardinality,
    name: string,
    targetId: Id,
    kind: PointerKind,
    isComputed: bool,
    isReadonly: bool)

  /** A link or property of an object type; `pointers` holds a link's own properties. */
  datatype Pointer = Pointer(
    card: Cardinality,
    kind: PointerKind,
    name: string,
    targetId: Id,
    isExclusive: bool,
    isComputed: bool,
    isReadonly: bool,
    hasDefault: bool,
    pointers: Option<seq<LinkProperty>>)

  /** A synthesised reverse link; `stub` is the name of the forward link it mirrors. */
  datatype Backlink = Backlink(
    card: Cardinality,
    name: string,
    targetId: Id,
    isExclusive: bool,
    isComputed: bool,
    isReadonly: bool,
    hasDefault: bool,
    stub: string)

  datatype TupleElement = TupleElement(name: string, targetId: Id)

  /** One exclusivity group: pointer names mapped to the owned pointers they name. */
  type Group = map<string, Pointer>

  /**
   * An object type's exclusive constraints: as delivered by the query (one
   * target expression per constraint), or as resolved into groups.
   */
  datatype Exclusives = RawTargets(targets: seq<string>) | Groups(groups: seq<Group>)

  datatype TypeRecord =
    | ScalarType(
        id: Id, name: string, isAbstract: bool, isSeq: bool, bases: seq<Id>,
        enumValues: Option<seq<string>>, materialId: Option<Id>, castType: Option<Id>)
    | ObjectType(
        id: Id, name: string, isAbstract: bool, bases: seq<Id>,
        unionOf: seq<Id>, intersectionOf: seq<Id>, pointers: seq<Pointer>,
        backlinks: seq<Backlink>, backlinkStubs: seq<Backlink>, exclusives: Exclusives)
    | ArrayType(id: Id, name: string, arrayElementId: Id, isAbstract: bool)
    | TupleType(id: Id, name: string, tupleElements: seq<TupleElement>, isAbstract: bool)
    | RangeType(id: Id, name: string, rangeElementId: Id, isAbstract: bool)
    | UnknownType(id: Id, name: string)

  /** The bases that take part in ordering: only object and scalar types declare them. */
  function BasesOf(t: TypeRecord): seq<Id>
  {
    match t
    case ScalarType(_, _, _, _, bases, _, _, _) => bases
    case ObjectType(_, _, _, bases, _, _, _, _, _, _) => bases
    case _ => []
  }

  const NumberId: Id := "00000000-0000-0000-0000-0000000001ff"
  const Int16Id: Id := "00000000-0000-0000-0000-000000000103"
  const Int32Id: Id := "00000000-0000-0000-0000-000000000104"
  const Int64Id: Id := "00000000-0000-0000-0000-000000000105"
  const Float32Id: Id := "00000000-0000-0000-0000-000000000106"
  const Float64Id: Id := "00000000-0000-0000-0000-000000000107"

  /** The synthetic `std::number` scalar that every numeric built-in is cast to. */
  const NumberType: TypeRecord := ScalarType(
    id := NumberId, name := "std::number", isAbstract := false, isSeq := false,
    bases := [], enumValues := None, materialId := None, castType := None)

  /** The five built-in numeric scalars, each mapped to `std::number`. */
  const TypeMapping: map<Id, TypeRecord> := map[
    Int16Id := NumberType,
    Int32Id := NumberType,
    Int64Id := NumberType,
    Float32Id := NumberType,
    Float64Id := NumberType]

  /** Every entry of the table maps onto `std::number`, which is not itself a key. */
  lemma TypeMappingTargetsNumber()
    ensures TypeMapping.Keys == {Int16Id, Int32Id, Int64Id, Float32Id, Float64Id}
    ensures forall k :: k in TypeMapping ==> TypeMapping[k].id == NumberId
    ensures NumberId !in TypeMapping
    ensures NumberType.castType.None? && BasesOf(NumberType) == []
  {
  }
}
