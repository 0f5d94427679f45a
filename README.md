# Type-list post-processing of the query builder's reflection layer

The driver's reflection layer fetches every schema type as one JSON list. It
then post-processes that list before the code generator uses it. This project
models that post-processing and proves properties of it:

- **Remap.** Each record is rewritten according to its kind:
  - the five numeric built-in scalars (`int16`, `int32`, `int64`, `float32`,
    `float64`) and every sequence scalar get `std::number` as their cast type;
  - a range's element id is mapped through the same table;
  - arrays, tuples and unknown kinds are left as they are;
  - an object type's raw exclusive-constraint targets are resolved against its
    own pointers and become *exclusivity groups*.

  A synthetic `std::number` scalar is then appended to the list.
- **Exclusive targets.** A target that names an owned pointer gives a
  one-entry group. A parenthesised target such as `(.a, .b)` is split on
  spaces, and each token is trimmed and loses one leading `.` and one trailing
  `,`. It gives one group keyed by exactly those tokens, but only when every
  token names an owned pointer. One target can give both kinds of group.
  Groups are never merged or deduplicated.
- **Topological sort.**
  - A first pass indexes the records by id; a later record replaces an
    earlier one with the same id.
  - A second pass lists, per id, the bases that object and scalar records
    declare. Each base is listed once, and the pass fails on the first base
    that has no record.
  - A depth-first walk then visits the records in input order. It first
    places the bases a type lists, then the type itself. It tracks the names
    on the current walk and the ids already placed, and fails when it meets a
    name already on the walk.

The model follows the code:

- `StrictMap` is a class with an insertion-ordered key sequence and a map.
- The state captured by the recursive `visit` closure (`visiting`,
  `visited`, `sorted`, `graph`, `adj`) is the class `TopoSorting.Visitor`.
  The closure itself is the pair of mutually recursive methods `Visit` and
  `VisitBases`.
- The remap loop and the group builder are methods with loop invariants. Each
  is proved equal to a specification function: `Remapped` or
  `ExclusiveGroups`.

The properties of the sort are stated over a ghost base relation (`BaseGraph`):

- `HasId`, `DeclaresBase` and `HasUnknownBase`;
- paths, reachability and `HasCycle`;
- `BasesFirst`: every declared base precedes its subtype;
- `PrefixStable`: what the first `k` records reach forms a prefix of the
  output, so types first reached from an earlier record come before types
  first reached only from a later one.

Files: `wrappers.dfy`, `strict_map.dfy`, `schema_types.dfy`,
`exclusives.dfy`, `remap.dfy`, `base_graph.dfy`, `topo_sort.dfy`,
`normalize.dfy` and `sort_examples.dfy`. The last one holds two worked
schemas: `Animal`/`Cat`/`Dog`, and a two-type cycle.

## Model

| member | source | states |
|---|---|---|
| SchemaTypes.TypeMappingTargetsNumber | packages/driver/src/reflection/queries/types.ts:80-112 | The table's keys are exactly the five numeric built-in ids. Each maps to the `std::number` record. That id is not itself a key. `std::number` has no cast type and no bases. |
| StrictMaps.StrictMap.constructor | packages/driver/src/reflection/queries/types.ts:315-316 | A new map is valid and empty. |
| StrictMaps.StrictMap.Set | packages/driver/src/reflection/queries/types.ts:318-319 | `set` overwrites the value of the key. A new key goes to the end of the insertion order; an existing key keeps its place. Keys stay distinct and match the map's domain. |
| SchemaTypes.BasesOf | packages/driver/src/reflection/queries/types.ts:323-327 | Definition: the bases of an object or scalar record; every other kind contributes no bases, as the `kind` test of the second pass skips it. |
| StrictMaps.StrictMap.Has | packages/driver/src/reflection/queries/types.ts:328 | Definition: `has(k)` holds exactly when `k` is a key of the map. |
| StrictMaps.StrictMap.Get | packages/driver/src/reflection/queries/types.ts:351-353 | Definition: `get(k)` is the value stored under `k`; it may only be called on a present key, which every call here is proved to meet. |
| ExclusiveTargets.IsParenthesised | packages/driver/src/reflection/queries/types.ts:277 | A target is composite when it starts with `(` and ends with `)`; such a target has at least two characters, so `slice(1, -1)` is well defined. |
| ExclusiveTargets.Trim | packages/driver/src/reflection/queries/types.ts:282 | Definition: `trim()` as leading then trailing whitespace removal; its meaning is stated by `TrimIsSlice`, `TrimEndsAreNotWhitespace` and `TrimSurrounded`. |
| ExclusiveTargets.StripMarks | packages/driver/src/reflection/queries/types.ts:283-284 | A leading `.` is dropped exactly when present, and after it a trailing `,` is dropped exactly when present. The result is what lies between them. |
| ExclusiveTargets.TrimToken | packages/driver/src/reflection/queries/types.ts:281-286 | Definition: the per-token clean-up, trimming then dropping the marks; `TrimTokenRecoversName` states what it recovers. |
| ExclusiveTargets.PointerIndex | packages/driver/src/reflection/queries/types.ts:265-268 | Definition: the `ptrs` dictionary, built by writing each owned pointer under its name in order; `PointerIndexIsLastWriteWins` states its keys and values. |
| ExclusiveTargets.CompositeGroup | packages/driver/src/reflection/queries/types.ts:287-294 | The `newEx` object: keyed by exactly the tokens, each mapped to the owned pointer of that name. |
| ExclusiveTargets.AllTokensOwned | packages/driver/src/reflection/queries/types.ts:288 | Definition: `targets.every(t => t in ptrs)` over the tokens of a composite target. |
| ExclusiveTargets.TargetGroups | packages/driver/src/reflection/queries/types.ts:273-295 | Definition: what one raw target pushes, in order: the one-entry group when the target is itself a pointer name, then the composite group when it is parenthesised and every token is owned; `SingleTargetGroup`, `CompositeTargetAllOrNothing` and `TargetGroupsAreOwned` state its cases. |
| ExclusiveTargets.ExclusiveGroups | packages/driver/src/reflection/queries/types.ts:270-298 | Definition: the groups of all raw targets concatenated in target order; `ResolveExclusives` is proved equal to it, and `ExclusiveGroupsAppend` and `ExclusiveGroupsAreOwned` state its properties. |
| ExclusiveTargets.TrimStart | packages/driver/src/reflection/queries/types.ts:282 | The result is a suffix of the input. What was dropped is all whitespace. The result does not start with whitespace. |
| ExclusiveTargets.TrimEnd | packages/driver/src/reflection/queries/types.ts:282 | The result is a prefix of the input. What was dropped is all whitespace. The result does not end with whitespace. |
| ExclusiveTargets.TrimIsSlice | packages/driver/src/reflection/queries/types.ts:282 | `trim()` returns a slice of its input with only whitespace before and after it. |
| ExclusiveTargets.TrimEndsAreNotWhitespace | packages/driver/src/reflection/queries/types.ts:282 | A trimmed string neither starts nor ends with whitespace. |
| ExclusiveTargets.TrimSurrounded | packages/driver/src/reflection/queries/types.ts:282 | Trimming whitespace-padded text whose ends are not whitespace gives back exactly that text. |
| ExclusiveTargets.Split | packages/driver/src/reflection/queries/types.ts:280 | `split(" ")` gives at least one piece. No piece contains the separator. Joining the pieces with the separator gives back the input. |
| ExclusiveTargets.SplitJoin | packages/driver/src/reflection/queries/types.ts:280 | Splitting undoes joining pieces that are free of the separator, empty pieces included. |
| ExclusiveTargets.Tokens | packages/driver/src/reflection/queries/types.ts:277-286 | A parenthesised target always yields at least one token, even when it is `()`. |
| ExclusiveTargets.StripMarksRecoversName | packages/driver/src/reflection/queries/types.ts:283-284 | Dropping one leading `.` and one trailing `,` from `.name,` gives `name`, with either mark optional. |
| ExclusiveTargets.TrimTokenRecoversName | packages/driver/src/reflection/queries/types.ts:281-286 | The token clean-up turns a whitespace-padded `.name,` into `name`, with either mark optional. |
| ExclusiveTargets.TokensOfDottedList | packages/driver/src/reflection/queries/types.ts:277-286 | Any parenthesised, space-separated list of dotted names, with optional trailing commas, is read back as exactly those names in order. |
| ExclusiveTargets.DottedPairTokens | packages/driver/src/reflection/queries/types.ts:277-286 | `(.a .b,)` is read as the two names `a` and `b`. |
| ExclusiveTargets.PointerIndexIsLastWriteWins | packages/driver/src/reflection/queries/types.ts:265-268 | The `ptrs` dictionary's keys are exactly the owned pointers' names. Each name maps to the last pointer with that name. |
| ExclusiveTargets.BuildPointerIndex | packages/driver/src/reflection/queries/types.ts:265-268 | The loop builds exactly the dictionary `PointerIndex` describes. |
| ExclusiveTargets.BuildGroup | packages/driver/src/reflection/queries/types.ts:291-294 | The loop builds the composite group: each token mapped to its pointer. |
| ExclusiveTargets.ResolveExclusives | packages/driver/src/reflection/queries/types.ts:270-298 | The loop, including its early `continue`, builds exactly `ExclusiveGroups`: each target's contribution, in target order. |
| ExclusiveTargets.CompositeGroupIsOwned | packages/driver/src/reflection/queries/types.ts:287-294 | A composite group is non-empty. It maps each name to the owned pointer of that name. |
| ExclusiveTargets.TargetGroupsAreOwned | packages/driver/src/reflection/queries/types.ts:273-295 | Every group that one target contributes is non-empty and maps names to their own pointers. |
| ExclusiveTargets.ExclusiveGroupsAreOwned | packages/driver/src/reflection/queries/types.ts:270-298 | Every resolved group is non-empty and maps names only to the owned pointers of those names. |
| ExclusiveTargets.ExclusiveGroupsAppend | packages/driver/src/reflection/queries/types.ts:272-296 | The groups of two target lists placed end to end are the two lists' groups concatenated. Nothing is merged or deduplicated. |
| ExclusiveTargets.ExclusiveGroupsOfOne | packages/driver/src/reflection/queries/types.ts:272-296 | A one-target list contributes exactly that target's groups. |
| ExclusiveTargets.SingleTargetGroup | packages/driver/src/reflection/queries/types.ts:274-276 | A plain target that names an owned pointer gives exactly the one-entry group for that pointer. |
| ExclusiveTargets.CompositeTargetAllOrNothing | packages/driver/src/reflection/queries/types.ts:277-295 | Take a parenthesised target that is not itself a pointer name. If every token names an owned pointer, it gives exactly one group, keyed by exactly its tokens, each mapped to its pointer. If any token is unknown, it gives nothing. |
| Remap.MapNumericId | packages/driver/src/reflection/queries/types.ts:249-250 | A numeric built-in id maps to `std::number`'s id. Any other id is kept. |
| Remap.Remapped | packages/driver/src/reflection/queries/types.ts:231-307 | Remapping one record keeps its id, name and bases. It turns an object's raw targets into groups and touches no other kind's exclusives. |
| Remap.RemapTypes | packages/driver/src/reflection/queries/types.ts:230-308 | The output is each input record remapped, in input order, followed by `std::number` at the end. |
| Remap.ScalarCastRule | packages/driver/src/reflection/queries/types.ts:233-239 | A scalar's cast type becomes `std::number` exactly when its id is numeric or it is a sequence. Otherwise the cast type is kept. Nothing else in the scalar changes. |
| Remap.RangeElementRule | packages/driver/src/reflection/queries/types.ts:248-251 | A range's element id is mapped through the numeric table. Nothing else in the range changes. |
| Remap.OtherKindsUnchanged | packages/driver/src/reflection/queries/types.ts:252-263 | Arrays, tuples and unknown kinds pass through unchanged. |
| Remap.ObjectExclusivesRule | packages/driver/src/reflection/queries/types.ts:264-298 | An object keeps everything except its exclusives. They become the groups resolved against its own pointers, and every group names owned pointers only. |
| BaseGraph.PathGoesBack | packages/driver/src/reflection/queries/types.ts:344-360 | In a bases-first order, following declared bases only moves to strictly earlier positions. |
| BaseGraph.BasesFirstRulesOutCycles | packages/driver/src/reflection/queries/types.ts:314-367 | If a bases-first order without repeats covers every id, no type is transitively its own base. |
| BaseGraph.BasesFirstIsClosed | packages/driver/src/reflection/queries/types.ts:344-360 | A bases-first order contains every transitive base of each id it contains. |
| BaseGraph.ReachedFromFirstGrows | packages/driver/src/reflection/queries/types.ts:362-364 | What the first `k` records reach, a longer prefix of records also reaches. |
| BaseGraph.VisitCoversReach | packages/driver/src/reflection/queries/types.ts:362-364 | Suppose the ids placed so far are what the first `i` records reach, and visiting record `i` adds only what it reaches. Then afterwards the placed ids are what the first `i + 1` records reach. |
| BaseGraph.VisitKeepsPrefixStable | packages/driver/src/reflection/queries/types.ts:362-364 | Appending the ids that record `i` newly reaches keeps every reach set a prefix of the output. |
| BaseGraph.EdgePathsArePaths | packages/driver/src/reflection/queries/types.ts:322-338 | When `adj` lists exactly the declared bases, its paths are exactly the paths of declared bases. |
| BaseGraph.EdgeReachesIsReaches | packages/driver/src/reflection/queries/types.ts:322-338 | Reachability through `adj` equals reachability through declared bases. |
| BaseGraph.EdgeCycleIsCycle | packages/driver/src/reflection/queries/types.ts:322-338 | `adj` has a cycle exactly when the declared bases do. |
| BaseGraph.EdgesFirstIsBasesFirst | packages/driver/src/reflection/queries/types.ts:322-338 | An order places `adj`'s bases first exactly when it places the declared bases first. |
| BaseGraph.EdgesFirstAppend | packages/driver/src/reflection/queries/types.ts:356 | Appending an id whose listed bases are all placed keeps the order bases-first. |
| BaseGraph.RepeatedIdIsEdgeCycle | packages/driver/src/reflection/queries/types.ts:345-347 | An id met again on a chain where each id lists the next as a base closes a cycle. |
| BaseGraph.ShapeDecides | packages/driver/src/reflection/queries/types.ts:314-367 | Ids, names and bases are all the sort looks at. Two lists that agree on them position by position agree on every property of the sort: which ids exist, which bases are declared, whether some base is unknown and which one is met first, whether there is a cycle, whether names identify ids, and which orders are bases-first and prefix-stable. |
| TopoSorting.Visitor.constructor | packages/driver/src/reflection/queries/types.ts:340-342 | The walk starts with no names on it, nothing visited and an empty, fresh output map. |
| TopoSorting.Visitor.Visit | packages/driver/src/reflection/queries/types.ts:344-360 | On success the type's id is placed. The output only grows at its end. Every id newly placed is the type or one of its transitive bases. Every id placed before keeps its record, and the type, when newly placed, is stored as itself. The names on the walk are restored. On failure the error is a dependency cycle, and either the listed bases contain a cycle or two records share a name but not an id. A type whose name is already on the walk fails at once with that name. A type already visited, and not on the walk, succeeds and changes nothing. |
| TopoSorting.Visitor.VisitBases | packages/driver/src/reflection/queries/types.ts:351-355 | On success every base listed for the type is placed, and all that was newly placed is reachable from the type. Every id placed before keeps its record. Failures are as for `Visit`. |
| TopoSorting.Visitor.Place | packages/driver/src/reflection/queries/types.ts:356-358 | The type is stored under its id, and nothing else in the output map changes. Its id is appended to the output order unless it was already visited. It joins `visited`, and its name leaves the walk. The output stays bases-first. |
| TopoSorting.RevisitedNameIsCycle | packages/driver/src/reflection/queries/types.ts:345-347 | A name met again on the current walk means the bases contain a cycle, unless two records share a name but not an id. |
| TopoSorting.ReachedThroughBase | packages/driver/src/reflection/queries/types.ts:352-354 | What a base's visit adds is reachable from the type that lists the base. |
| TopoSorting.IndexRecords | packages/driver/src/reflection/queries/types.ts:318-320 | The `graph` map's keys are exactly the ids of the list. Each key maps to the last record of the list with that id, since a later `set` overwrites an earlier one. |
| TopoSorting.IndexBases | packages/driver/src/reflection/queries/types.ts:322-338 | It succeeds exactly when every declared base is an id of the list. Then `adj` lists exactly the bases that object and scalar records declare for each id, each base once. Otherwise it reports the first unknown base in list order. |
| TopoSorting.ListBases | packages/driver/src/reflection/queries/types.ts:327-337 | It lists one record's bases one by one in their order (`WithBases`), each new one appended to the entry, so the edges added are exactly that record's bases. Otherwise it stops at the first base with no record and reports it, after listing exactly the bases before it. |
| TopoSorting.AddBase | packages/driver/src/reflection/queries/types.ts:332-336 | `adj.get(id).add(base)` creates the entry on first use and appends `base` unless it is already listed (`WithBase`). Other entries are untouched, and the edges are the old ones plus this one. Entries stay free of repeats. |
| TopoSorting.ListedBases | packages/driver/src/reflection/queries/types.ts:327-337 | Listing bases that are all known ids adds exactly their edges, keeps every edge pointing at a known id, and keeps every entry free of repeats. |
| TopoSorting.ExtendedHolds | packages/driver/src/reflection/queries/types.ts:332-336 | Adding bases to an entry keeps what was listed as a prefix, so insertion order is kept. The entry then holds exactly what was listed and the bases added. |
| TopoSorting.ExtendedDistinct | packages/driver/src/reflection/queries/types.ts:332-336 | Like a JavaScript `Set`, an entry never holds a base twice. |
| TopoSorting.TopoSort | packages/driver/src/reflection/queries/types.ts:314-367 | On success every id of the list appears exactly once, with a record carrying that id. Every declared base precedes its subtype. Types first reached from an earlier record come before types first reached only from a later one. It reports an unknown reference exactly when some declared base has no record, naming the first one. It fails whenever the bases contain a cycle. It succeeds when there is no unknown base and no cycle, and names identify ids. |
| TopoSorting.VisitStep | packages/driver/src/reflection/queries/types.ts:362-364 | One top-level visit keeps the output equal to what the first records reach, and keeps it prefix-stable. |
| TopoSorting.SortCovers | packages/driver/src/reflection/queries/types.ts:362-366 | After every record is visited, the output holds exactly the ids of the list, bases first, and the list has no cycle. |
| Normalize.RemapKeepsShape | packages/driver/src/reflection/queries/types.ts:230-308 | The remapped list agrees with the input plus `std::number` on every id, name and base. |
| Normalize.RemappedIds | packages/driver/src/reflection/queries/types.ts:308 | The remapped list's ids are the input's ids and `std::number`'s. |
| Normalize.RemappedRecord | packages/driver/src/reflection/queries/types.ts:230-308 | Every record of the remapped list is `std::number` or the remap of an input record. |
| Normalize.RemappedFailures | packages/driver/src/reflection/queries/types.ts:308-311 | An unknown base, a cycle or a shared name occurs in the remapped list exactly when it occurs in the input plus `std::number`. The first unknown base is the same in both lists. |
| Normalize.NormalizeTypes | packages/driver/src/reflection/queries/types.ts:230-311 | Remap, append `std::number`, then sort. On success every input id and `std::number` appear once, each with its remapped record, bases first, and with types first reached from an earlier record before types first reached only from a later one. The sort reports an unknown reference exactly when the input plus `std::number` has an unknown base, and it names the first one. It fails whenever that list has a cycle, and it succeeds when there is no unknown base, no cycle, and names identify ids. |
| SortExamples.ZooOrder | packages/driver/src/reflection/queries/types.ts:362-364 | For `Animal`, `Cat` and `Dog`, where `Cat` and `Dog` extend `Animal`, the only order that keeps the sort's promises is the input order. |
| SortExamples.SortZoo | packages/driver/src/reflection/queries/types.ts:314-367 | Sorting `Animal`, `Cat`, `Dog` gives `Animal`, `Cat`, `Dog`. |
| SortExamples.ZooIsSortable | packages/driver/src/reflection/queries/types.ts:314-367 | The zoo has no unknown base and no cycle, and its names identify its ids. |
| SortExamples.LoopIsCycle | packages/driver/src/reflection/queries/types.ts:345-347 | Two types that extend each other form a cycle. |
| SortExamples.SortLoop | packages/driver/src/reflection/queries/types.ts:345-347 | Sorting two types that extend each other always fails with a dependency cycle. |

## Left out

- The introspection query, the server version probe, the JSON parsing of the
  reply and the debug log are I/O. The model starts from the parsed list of
  records.
- Fields computed by the server in the query are taken as given in the
  records: `is_seq`, the lists of pointers and backlinks, `union_of` and
  `intersection_of`. The introspection query itself is not part of this
  model.
- The link-property list of a pointer is kept as it arrives and is not
  flattened further.
- `target in ptrs` on a plain JavaScript object is also true for keys
  inherited from `Object.prototype`, such as `constructor`. The model treats
  `ptrs` as a dictionary holding only the owned pointers' names.
- Strings are sequences of Unicode code points, not of UTF-16 code units. The
  whitespace set of `trim()` is written out as a predicate.
- The records are values. The source updates each record object in place
  inside the array. The model builds a new list of records, which has the
  same contents.
- Error texts are reduced to the two outcomes `UnknownReference(base)` and
  `DependencyCycle(name)`. Neither the wording nor the second name in the
  cycle message (`Array.from(visiting).slice(1, 2)`) is modelled.
- The code generator that consumes the sorted map is not part of this model.
- An exclusive group (`newEx`) is a JavaScript object whose keys keep their
  insertion order. The model keeps a group as a map, which has no key order.
  The sort here does not depend on that order.
- StrictMap's own source file is not part of this model. Its behaviour is
  taken from its uses here: `set`, `has`, and `get` on a present key.
- StrictMaps.StrictMap.Get: requires the key to be present. The source throws
  on a missing key; every call here is proved to use a present key.
- Normalize.NormalizeTypes: requires every object record to carry raw
  exclusive targets, as the query delivers them. A list already remapped is
  not a valid input.
- TopoSorting.TopoSort: success on an acyclic list with known bases is proved
  only when records that share a name share an id. The walk tracks names,
  not ids, so two different types with the same name can raise a
  dependency-cycle error without a real cycle.
- TopoSorting.TopoSort: when several records share an id, the contract says
  only that the output holds one of them. It does not say which; the walk
  keeps the first one it reaches. (`IndexRecords` does state that `graph`
  keeps the last one.)
- TopoSorting.Visitor.Visit: when the cycle is met inside the visit of a
  base, the contract does not say which name is reported. It does say so
  for a type whose own name is already on the walk.
- TopoSorting.TopoSort: among the types first reached from the same record
  (for example, two bases of one type), the order follows the walk over the
  declared bases in listing order, not the input order; the contract does not
  state that order, only prefix stability per record.
- TopoSorting.TopoSort: the two passes over the list are split into the
  helper methods `IndexRecords`, `IndexBases`, `ListBases` and `AddBase`.
  A base's `Set` of ids is modelled as a sequence without repeats, in
  insertion order.
