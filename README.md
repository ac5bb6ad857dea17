# Properties-To-Yaml: nesting and flattening of dotted keys

This project models the conversion logic of the Properties-To-Yaml IntelliJ
plugin, `MyProjectService`:

- `propertiesToHierarchicalMap` turns flat `key=value` properties into a
  nested map. Each key is split on `.`, nested maps are walked or created for
  every segment but the last, and the value is assigned at the last segment.
  A segment already bound to a scalar makes the unchecked cast fail.
- `flattenYamlMap` walks a nested map depth first and records every
  non-mapping value under its dot-joined path. Top-level keys carry no prefix.
- `convertYamlToProperties` treats a loaded YAML root that is not a mapping as
  an empty mapping. It then copies every flattened value into the properties.

The nested map is the value datatype `ConfigTree.Node`: a scalar `Leaf`, or a
`Mapping` whose entries keep insertion order and unique keys, like the
`LinkedHashMap` the source builds. `Put` replaces a key in place or appends it.

Modules:

- `DottedKeys` (dotted_keys.dfy): Kotlin's `split(".")`, which keeps empty
  segments, and its inverse `Join`.
- `ConfigTree` (config_tree.dfy): the tree, ordered-map `Get`/`Put`, and path
  lookup.
- `Nest` (nest.dfy): the reference behaviour `Insert`/`NestAll`, the
  imperative `NestProperties`/`NestEntry` walk proved equal to it, and what
  nesting does to the tree.
- `Flattening` (flatten.dfy): the reference fold `FlattenFirst`, the loop
  `FlattenYamlMap` proved equal to it, the characterisation of its keys by
  paths of entries for every tree, and by dotted segments for well-formed
  trees.
- `RoundTrip` (round_trip.dfy): flattening nested properties gives the
  properties back when keys are prefix free and do not start with a dot.
- `Convert` (convert.dfy): the root guard and the copy loop.

Behaviour of the code that the model keeps:

- A scalar or null YAML root gives empty properties.
- A key whose proper prefix is already a scalar fails through the cast. The
  error (`Nest.ScalarInPath`) names the failing key and the path of the
  scalar.
- A shorter key that comes later silently replaces a whole submapping.
- Keys keep their empty segments: `a..b` nests under a child named `""`.
- A YAML key that contains a dot is kept whole when flattened. It can then
  collide with a nested path, and the value visited later wins.
- Every non-mapping value is stored as its string form.

## Model

| member | source | states |
|---|---|---|
| DottedKeys.Split | src/main/kotlin/com/github/senocak/propertiestoyaml/services/MyProjectService.kt:132 | splitting gives one segment more than the key has dots, and no segment contains a dot |
| DottedKeys.JoinSplit | src/main/kotlin/com/github/senocak/propertiestoyaml/services/MyProjectService.kt:132 | joining the split segments with dots gives the key back |
| DottedKeys.SplitJoin | src/main/kotlin/com/github/senocak/propertiestoyaml/services/MyProjectService.kt:132 | splitting dot-joined dot-free segments gives the same segments back |
| DottedKeys.JoinSnoc | src/main/kotlin/com/github/senocak/propertiestoyaml/services/MyProjectService.kt:162 | one more level appends `"." + key` to the joined path |
| DottedKeys.SplitExamples | src/main/kotlin/com/github/senocak/propertiestoyaml/services/MyProjectService.kt:132 | empty segments are kept: `""` is one empty segment; `a..b`, `.b` and `a.` keep theirs |
| ConfigTree.Get | src/main/kotlin/com/github/senocak/propertiestoyaml/services/MyProjectService.kt:137 | a found node is bound to the key in the mapping, and nothing is found only when no entry has the key |
| ConfigTree.Put | src/main/kotlin/com/github/senocak/propertiestoyaml/services/MyProjectService.kt:138 | after the assignment the key holds the new node, every other key holds what it held, and at most one entry is added |
| ConfigTree.PutEntries | src/main/kotlin/com/github/senocak/propertiestoyaml/services/MyProjectService.kt:145 | an assignment leaves every other entry at its position and keeps keys unique |
| Nest.Insert | src/main/kotlin/com/github/senocak/propertiestoyaml/services/MyProjectService.kt:130-145 | nesting one entry fails only at a proper prefix of its segments, and a scalar sits there |
| Nest.NestAll | src/main/kotlin/com/github/senocak/propertiestoyaml/services/MyProjectService.kt:127-149 | a failure names one of the input keys and a proper prefix of its segments |
| Nest.NestProperties | src/main/kotlin/com/github/senocak/propertiestoyaml/services/MyProjectService.kt:127-149 | the loop over the properties gives exactly the nested tree of the reference behaviour, or its first failure |
| Nest.NestEntry | src/main/kotlin/com/github/senocak/propertiestoyaml/services/MyProjectService.kt:131-145 | walking the segments with the `current` reference and assigning at the last one does exactly what nesting one entry does |
| Nest.Descend | src/main/kotlin/com/github/senocak/propertiestoyaml/services/MyProjectService.kt:136-142 | one walk step: a failed cast means the entry fails at this segment; otherwise `current` is the mapping at the next path and the entry's outcome is unchanged |
| Nest.CreateChild | src/main/kotlin/com/github/senocak/propertiestoyaml/services/MyProjectService.kt:137-139 | a missing segment gets an empty mapping, `current` still points at its path, and the entry's outcome is unchanged |
| Nest.SetAtParent | src/main/kotlin/com/github/senocak/propertiestoyaml/services/MyProjectService.kt:138-145 | a write through `current` at the mapping of a path is an assignment in that mapping, which the tree then holds at the same path |
| Nest.InsertLookup | src/main/kotlin/com/github/senocak/propertiestoyaml/services/MyProjectService.kt:130-145 | after nesting, the key's path holds the value; every proper prefix is a mapping; nothing remains below the key; other paths are unchanged |
| Nest.InsertFailsIff | src/main/kotlin/com/github/senocak/propertiestoyaml/services/MyProjectService.kt:142 | nesting fails if and only if a proper prefix of the key's segments holds a scalar |
| Nest.InsertFailsAt | src/main/kotlin/com/github/senocak/propertiestoyaml/services/MyProjectService.kt:142 | reaching a scalar after some mapping steps is the failure at that segment |
| Nest.InsertAlongMappings | src/main/kotlin/com/github/senocak/propertiestoyaml/services/MyProjectService.kt:145 | once every step before the last is a mapping, nesting is one assignment at the end of the path |
| Nest.NestAllErrSticks | src/main/kotlin/com/github/senocak/propertiestoyaml/services/MyProjectService.kt:142 | a failure ends the conversion whatever entries follow |
| Nest.InsertIntoEmpty | src/main/kotlin/com/github/senocak/propertiestoyaml/services/MyProjectService.kt:137-145 | nesting into an empty map builds one single-entry mapping per segment |
| Nest.SharedPrefixExample | src/main/kotlin/com/github/senocak/propertiestoyaml/services/MyProjectService.kt:137-142 | `a.b.c=1, a.b.d=2` share one mapping for `a` and one for `b` |
| Nest.ScalarPrefixExample | src/main/kotlin/com/github/senocak/propertiestoyaml/services/MyProjectService.kt:142 | `a=x` followed by `a.b=y` fails at path `[a]` |
| Nest.OverwriteExample | src/main/kotlin/com/github/senocak/propertiestoyaml/services/MyProjectService.kt:145 | `a.b=y` followed by `a=x` leaves only `a -> x` |
| Nest.EmptySegmentExample | src/main/kotlin/com/github/senocak/propertiestoyaml/services/MyProjectService.kt:132-145 | `a..b=v` nests under a child named `""` |
| Flattening.NewKeyParts | src/main/kotlin/com/github/senocak/propertiestoyaml/services/MyProjectService.kt:162 | with an empty prefix the key stays as it is; otherwise the new key lies under the prefix and the key follows the prefix and its dot |
| Flattening.EntryFlat | src/main/kotlin/com/github/senocak/propertiestoyaml/services/MyProjectService.kt:161-170 | under a non-empty prefix, every key an entry contributes starts with the prefix and a dot |
| Flattening.FlattenFirst | src/main/kotlin/com/github/senocak/propertiestoyaml/services/MyProjectService.kt:159-171 | under a non-empty prefix, every key produced starts with the prefix and a dot |
| Flattening.FlattenYamlMap | src/main/kotlin/com/github/senocak/propertiestoyaml/services/MyProjectService.kt:158-174 | the loop with its `putAll` of the recursive result gives the reference fold over all entries, which is `FlattenFrom` |
| Flattening.FlattenFrom | src/main/kotlin/com/github/senocak/propertiestoyaml/services/MyProjectService.kt:158-174 | for every tree, dotted keys and repeated keys included: a key is produced if and only if some path of entries reaches a scalar recorded under it, and it holds the scalar of the last such path in traversal order |
| Flattening.Flatten | src/main/kotlin/com/github/senocak/propertiestoyaml/services/MyProjectService.kt:158 | with the default empty prefix, the keys are those of the scalars reached from the root, and a top-level scalar is recorded under its own name |
| Flattening.FlattenFirstPaths | src/main/kotlin/com/github/senocak/propertiestoyaml/services/MyProjectService.kt:159-171 | after the first `n` entries, a key is recorded if and only if a path through them reaches a scalar under it, with the scalar of the last such path |
| Flattening.EntryFlatPaths | src/main/kotlin/com/github/senocak/propertiestoyaml/services/MyProjectService.kt:161-170 | one entry contributes exactly the keys of the paths through it, each with the scalar of its last path |
| Flattening.BeforeTotal | src/main/kotlin/com/github/senocak/propertiestoyaml/services/MyProjectService.kt:159-171 | two different paths to scalars are ordered by the traversal one way or the other |
| Flattening.LastReachUnique | src/main/kotlin/com/github/senocak/propertiestoyaml/services/MyProjectService.kt:162-169 | the last path reaching a key is unique, so the recorded value is determined |
| Flattening.LastContributionWins | src/main/kotlin/com/github/senocak/propertiestoyaml/services/MyProjectService.kt:162-169 | a key's value comes from the last entry that contributes the key |
| Flattening.FlattenFirstKeys | src/main/kotlin/com/github/senocak/propertiestoyaml/services/MyProjectService.kt:159-171 | a key is produced if and only if some visited entry contributes it |
| Flattening.NewKeyStep | src/main/kotlin/com/github/senocak/propertiestoyaml/services/MyProjectService.kt:162 | extending the prefix by a key is joining one more path segment |
| Flattening.FlattenSound | src/main/kotlin/com/github/senocak/propertiestoyaml/services/MyProjectService.kt:158-173 | every produced key's segments continue the current path and lead to a scalar holding the recorded value |
| Flattening.FlattenComplete | src/main/kotlin/com/github/senocak/propertiestoyaml/services/MyProjectService.kt:158-173 | every scalar reachable from a visited entry is recorded under its joined path |
| Flattening.FlattenLeaves | src/main/kotlin/com/github/senocak/propertiestoyaml/services/MyProjectService.kt:158-173 | in a well-formed tree (unique, dot-free keys; no mapping under an empty top-level key), a key is produced if and only if its segments lead to a scalar, and it holds that scalar |
| Flattening.NestedExample | src/main/kotlin/com/github/senocak/propertiestoyaml/services/MyProjectService.kt:162 | top-level keys carry no prefix and deeper keys are dot-joined |
| Flattening.EmptyMappingExample | src/main/kotlin/com/github/senocak/propertiestoyaml/services/MyProjectService.kt:159-173 | an empty mapping and an empty input contribute no keys |
| Flattening.DottedKeyExample | src/main/kotlin/com/github/senocak/propertiestoyaml/services/MyProjectService.kt:162 | a dotted key inside a mapping is kept whole under its prefix: `lvl -> org.x -> D` gives `lvl.org.x=D` |
| Flattening.CollisionExample | src/main/kotlin/com/github/senocak/propertiestoyaml/services/MyProjectService.kt:162-169 | a literal key `a.b` and the nested `a -> b` collide; the later one wins, in either order |
| RoundTrip.ToMap | src/main/kotlin/com/github/senocak/propertiestoyaml/services/MyProjectService.kt:130 | the properties table has exactly the keys of the entries, and each holds the value of the last entry with that key |
| RoundTrip.InsertWellFormed | src/main/kotlin/com/github/senocak/propertiestoyaml/services/MyProjectService.kt:132-145 | nesting keeps keys unique and dot-free at every level |
| RoundTrip.InsertTop | src/main/kotlin/com/github/senocak/propertiestoyaml/services/MyProjectService.kt:137-145 | nesting changes only the top-level entry of the first segment, which becomes a mapping for a longer key |
| RoundTrip.InsertSucceeds | src/main/kotlin/com/github/senocak/propertiestoyaml/services/MyProjectService.kt:142 | nesting cannot fail when no earlier key is a proper segment prefix of the new one |
| RoundTrip.InsertHolds | src/main/kotlin/com/github/senocak/propertiestoyaml/services/MyProjectService.kt:130-145 | nesting a key that is not prefix-related to earlier keys adds exactly that key to what the tree holds |
| RoundTrip.NestHolds | src/main/kotlin/com/github/senocak/propertiestoyaml/services/MyProjectService.kt:127-149 | prefix-free keys without a leading dot never fail, and the tree holds exactly the properties |
| RoundTrip.RoundTrip | src/main/kotlin/com/github/senocak/propertiestoyaml/services/MyProjectService.kt:127-174 | flattening nested properties gives back the properties table |
| RoundTrip.RoundTripEntries | src/main/kotlin/com/github/senocak/propertiestoyaml/services/MyProjectService.kt:127-174 | with distinct keys every entry comes back with its own value, and nothing else does |
| RoundTrip.LeadingDotExample | src/main/kotlin/com/github/senocak/propertiestoyaml/services/MyProjectService.kt:162 | `.b=v` nests under a child named `""` and comes back as `b` |
| Convert.PropertiesOf | src/main/kotlin/com/github/senocak/propertiestoyaml/services/MyProjectService.kt:83-88 | a root that is not a mapping gives no properties; for any mapping, a key is produced if and only if some path of entries reaches a scalar recorded under it, with the scalar of the last such path; for a well-formed mapping, exactly the keys whose segments lead to a scalar, with that scalar's value |
| Convert.ConvertYamlToProperties | src/main/kotlin/com/github/senocak/propertiestoyaml/services/MyProjectService.kt:83-88 | the guard and the copy loop give exactly those properties |

## Left out

- Parsing and printing YAML (SnakeYAML `load`, `dump`, `DumperOptions`, lines 37-44 and 79-83): the model starts from the loaded tree (`Convert.Document`) and ends at the nested tree.
- Reading and writing `.properties` text (`Properties.load`, `store`, escapes, header comment, lines 31 and 105): properties are a sequence of already-parsed string pairs.
- `value.toString()` on non-string YAML values (numbers, booleans, dates, lists, line 87): leaves are strings already in their final form. A list counts as a scalar leaf. A list or scalar at the root counts as a non-mapping root.
- Null values and non-string mapping keys in YAML: every leaf carries a string and every mapping key is a string.
- The order in which `java.util.Properties` (a `Hashtable`) yields its entries is unspecified: the input is a sequence, and every lemma holds for every order.
- Nest.NestEntry: the `current` reference aliasing a submap of `result` is modelled as a path into the value tree plus a copy of the submap, and writes through `current` update the tree along that path. Heap aliasing itself is not modelled.
- The `ClassCastException` is modelled as the error value `Nest.ScalarInPath`; the exception type, its message, and what the callers do with it are not modelled.
- File I/O, directory creation and the IDE file-system refresh (`saveYamlToFile`, `savePropertiesToFile`, lines 53-70 and 100-119): I/O with swallowed IDE errors.
- The tool window, the context-menu actions and the startup activity: IDE plumbing whose only logic is file-extension checks and output-name building.
