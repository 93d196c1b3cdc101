# siwa: a Dafny model of the Swagger 2.0 document normaliser

siwa reads a Swagger 2.0 document. The document is either a plain object or a
YAML/JSON string. siwa turns it into a normalised tree:

- `resolve` decodes the input and rebuilds the `definitions` section. Every
  `$ref` to another definition is expanded in place. A reference back to a
  definition already being expanded becomes the marker
  `{"path": "#/definitions/<name>", "nested": true}`.
- `parse` validates the document. It follows a `$ref` on a path item and
  visits every key of a path item that the method pattern accepts. For each
  such operation it takes `parameters` and `responses` along their fallback
  chains (operation, then path item, then document). Each fragment goes
  through `lookup`, which:
  - resolves the fragment's pointer and hoists its `schema`;
  - renames a `required` list to `requireds`;
  - folds `items`, `allOf` or `properties` into `type` plus an ordered
    `children` list;
  - turns `integer` into `number`.
- `compare` checks whether two documents serialise to the same text.

The model is pure and functional:

- JSON values are the datatype `JsValues.Json`. An object is its ordered list
  of members.
- JavaScript `undefined` is `None`.
- Exceptions are `Failure` values: the two deliberate specification errors of
  `parse`, a `TypeError` for a read or call on a value that lacks it, and a
  `StackOverflow` for the engine's recursion limit.
- The YAML loader is the parameter `load` of `Siwa.Resolve`.
- The engine's stack is the parameter `fuel` of `Normalize.Lookup` and
  `Siwa.Parse`.

Modules follow the source:

| module | file | models |
|---|---|---|
| `Utils` | utils.dfy | `getType`, `isType` |
| `JsValues` | js_values.dfy | JSON values, truthiness, own members, `Object.assign`, `delete` |
| `Pointers` | pointers.dfy | `getRef`, and the `split('/')` it relies on |
| `Definitions` | definitions.dfy | `defer` and the rebuilding of `definitions` in `resolve` |
| `Normalize` | normalize.dfy | `lookup` |
| `NormalizeFacts` | normalize_lemmas.dfy | properties of `lookup` |
| `Serialize` | serialize.dfy | `JSON.stringify` as tokens, with a reader that inverts it |
| `Methods` | methods.dfy | the method regular expression |
| `Siwa` | document.dfy | `resolve`, `parse`, `compare`, static `parse` |
| `SiwaFacts` | document_lemmas.dfy | properties of `parse` |

## Behaviour worth knowing

- **Responses fallback.** `responses` is taken from the operation, then from
  the path item's `responses`, then from the document's `responses`
  (src/index.js:104). This is the same three-step chain as for `parameters`.
  `SiwaFacts.OperationContents` states it.
- **Comparison.** `compare` compares `JSON.stringify` output
  (src/index.js:219). That output depends on member order, so two documents
  with the same members in a different order compare unequal.
  `Siwa.CompareIsEquality` states this, and `Siwa.CompareSeesMemberOrder`
  gives such a pair.
- **Shape keys.** Each reshaping deletes only the shape key of the branch it
  takes (src/index.js:168, :178, :196-197). After `items`, the members
  `allOf`, `properties` and `requireds` stay in place. After `allOf`,
  `properties` and `requireds` stay. `NormalizeFacts.ItemsLeaveOtherShapes`
  and `NormalizeFacts.AllOfLeavesProperties` state this.

The method test at src/index.js:72 is `/^get|delete|head|options|post|put|patch$/`.
Its anchors bind only to the first and last alternatives. The model keeps it as
written: a key counts as a method when it starts with `get`, contains
`delete`, `head`, `options`, `post` or `put`, or ends with `patch`.
`Methods.IsMethodMatchesPattern` proves that this reading is exactly the
language of the pattern.

## Model

| member | source | states |
|---|---|---|
| Utils.GetType | src/lib/utils.js:27-39 | the tag is one of `dataTypes`; `undefined`, `null`, `boolean`, `number`, `string`, `array` and `object` are each returned exactly for the value of that kind, so arrays and null are told apart from objects |
| Utils.IsType | src/lib/utils.js:41-43 | an unknown tag never matches; `object`, `array` and `string` match exactly the values of that kind |
| JsValues.OwnEntries | src/index.js:33-34 | the members a `for…in` with `hasOwnProperty` visits: an object's own members in order, an array's or string's elements under their index names, nothing for other values |
| JsValues.Member | src/index.js:239 | a property read throws a `TypeError` exactly when the base is null or undefined, and otherwise yields the property |
| JsValues.AssignContents | src/index.js:152 | `Object.assign` yields the union of the member names; a source member overrides the target's, and other target members are kept |
| Pointers.Split | src/index.js:237 | `split('/')` yields at least one piece, none containing `/`, and joining the pieces gives back the string |
| Pointers.SplitJoin | src/index.js:237 | splitting undoes joining for any list of `/`-free pieces |
| Pointers.GetRef | src/index.js:230-244 | a falsy pointer is passed through, as is a non-string one (an equal copy); a string pointer yields a defined value, and any result other than null is `spec[segment 1][segment 2]` |
| Pointers.GetRefFinds | src/index.js:237-240 | `#/<section>/<name>` resolves to the member `name` of the object `section` of the document |
| Pointers.GetRefMisses | src/index.js:238-243 | a missing section or a missing name yields null instead of an exception |
| Pointers.GetRefIgnoresOtherSegments | src/index.js:237-239 | only the second and third segments count: the first is never checked and segments after the third are ignored |
| Definitions.RefName | src/index.js:253 | a recognised reference is exactly `#/definitions/` followed by a non-empty name the pattern captures |
| Definitions.RefNameOfPointer | src/index.js:253 | the pointer built from a name is recognised as that name |
| Definitions.Defer | src/index.js:248-272 | the expansion is null exactly when the definition is missing or falsy |
| Definitions.ExpandFieldsAppend | src/index.js:253-269 | each `$ref` member is rewritten independently of its siblings: the rewrite of a concatenation is the concatenation of the rewrites |
| Definitions.RefOnPathIsMarker | src/index.js:254-260 | a reference to a name already on the expansion path becomes the `nested` marker |
| Definitions.RefOffPathIsExpanded | src/index.js:261-267 | a reference to any other name becomes that definition's expansion with the name pushed on the path, or disappears when the definition is falsy |
| Definitions.SelfReference | src/index.js:248-260 | a definition that refers to itself expands once, with the inner reference cut off by the marker |
| Definitions.NestedSelfReference | src/index.js:248-260 | a self-reference through `properties` and `items` is cut off at the inner reference |
| Definitions.MutualReference | src/index.js:248-267 | two definitions referring to each other: the second is inlined once and its reference back becomes the marker |
| Definitions.DeferRefFree | src/index.js:253-269 | when no definition is itself a bare pointer string, no `$ref` to a definition is left anywhere in the expansion |
| Definitions.ExpandRefFreeIsIdentity | src/index.js:253 | the rewrite leaves a value without definition references unchanged, so expanding an expanded definition again changes nothing |
| Definitions.CallDepth | src/index.js:251 | the nesting of `defer` calls is bounded by the number of definition names not yet on the path, which is how the stack guard makes expansion terminate |
| Definitions.ExpandDefinitions | src/index.js:31-39 | the rebuilt section names exactly the entries whose definition is truthy, without duplicates, and holds the `defer` expansion of each |
| Definitions.ExpandedSectionContents | src/index.js:31-39 | a name is in the rebuilt section exactly when its definition is truthy, and then holds that definition expanded with the name itself on the path |
| Definitions.ExpandedSectionOrder | src/index.js:33-37 | the rebuilt section lists its names in the order the definitions come, keeping exactly those whose value is truthy, which the order-sensitive compare at src/index.js:219 can see |
| Normalize.IndexOf | src/index.js:192 | `indexOf` on a list gives -1 exactly when the string is absent, and otherwise its first position |
| Normalize.StrIndexOf | src/index.js:192 | `indexOf` on a string gives -1 exactly when the word occurs nowhere from `from` on, and otherwise its first occurrence |
| Normalize.RequiredOf | src/index.js:183-192 | the `required` flag is list membership for a list and substring occurrence for a string; any other `requireds` has no `indexOf` and throws |
| Normalize.RequiredsOf | src/index.js:183 | the flags are read from `requireds` when it is truthy, and from an empty list otherwise |
| Normalize.RenameRequired | src/index.js:156-159 | a `required` list moves to `requireds` and `required` is removed; anything else is left alone; `schema` is untouched |
| Normalize.RenameRequiredFrame | src/index.js:156-159 | renaming touches no member but `required` and `requireds` |
| Normalize.Hoist | src/index.js:146-154 | without a truthy `schema` nothing changes; with one, `schema` is gone afterwards |
| Normalize.HoistContents | src/index.js:146-154 | after hoisting, the members are those of the fragment and of the schema without `schema`, and a schema member overrides the fragment's |
| Normalize.NamedFragmentContents | src/index.js:84-86 | `Object.assign({name}, entry)` leads with `name`, which the entry's own `name` overrides, and otherwise holds exactly the entry's members |
| Normalize.FoldType | src/index.js:200-210 | `integer` becomes `number`, with `format` defaulting to `int64`; `array` and `object` get truthy `children`, empty by default; other nodes are unchanged; when the input has no truthy `schema`, the result is a finished node |
| Normalize.FoldTypeFrame | src/index.js:200-210 | folding touches only `type` and `format` of an integer, and only `children` of an array or object |
| Normalize.Prepare | src/index.js:131-159 | after installing the pointer target and hoisting, no truthy `schema` is left |
| Normalize.Lookup | src/index.js:125-213 | a non-null result is an object; `lookup` never throws a specification error; a result that is not a marker is a finished node (no `schema`, no `integer`, children where its type needs them) |
| Normalize.Unify | src/index.js:161-198 | a node with no truthy `items`, `allOf` or `properties` comes back unchanged, and reshaping by `items`, `allOf` or `properties` never touches `schema` |
| Normalize.UnifyItems | src/index.js:161-168 | `items` succeeds exactly when the lookup of the item does; the node is then an `array` without `items`, whose `children` are the looked-up item, or empty when that lookup is null |
| Normalize.UnifyAllOf | src/index.js:169-178 | an `allOf` that is not a list throws a `TypeError`; a list succeeds exactly when the walk over its members does, and the node is then an `array` without `allOf` whose `children` are exactly the walk's kept results |
| Normalize.UnifyProperties | src/index.js:179-198 | `properties` succeeds exactly when the walk over its own members does, with flags read from `Normalize.RequiredsOf`; the node is then an `object` whose `children` are exactly the walk's children, without `properties` or `requireds` |
| Normalize.LookupEach | src/index.js:173-177 | the kept results are objects, never more than the inputs |
| Normalize.Stamp | src/index.js:192 | the child carries `required` set to the given flag |
| Normalize.PropertyChild | src/index.js:187-193 | a successful child is the member's `{name, ...entry}` lookup, which is a node and not null, with `required` set to the member's flag from `requireds`; a member that looks up to null throws, because the flag is written first; so does a `requireds` without `indexOf` |
| Normalize.LookupProperties | src/index.js:184-194 | exactly one child per member, in member order: the i-th child is the `PropertyChild` of the i-th member, flagged from `requireds` under its own name |
| NormalizeFacts.LookupEarlyOutcomes | src/index.js:125-140 | a non-object is null, a marker pointer is returned as it is, and a pointer that leads nowhere makes the fragment null |
| NormalizeFacts.LookupFuelMonotone | src/index.js:125-213 | a lookup that did not overflow gives the same outcome with one more frame, so the stack bound only stands for the engine's limit |
| NormalizeFacts.LookupDeeper | src/index.js:125-213 | the same for any deeper stack |
| NormalizeFacts.LookupEachDropsNull | src/index.js:173-176 | a fragment that looks up to null is skipped without affecting the others |
| NormalizeFacts.LookupEachKeepsAll | src/index.js:173-176 | when every fragment looks up to a node, all are kept, in order, each being its lookup |
| NormalizeFacts.LookupEachFirstFailure | src/index.js:173-176 | the first exception met is the one the walk throws |
| NormalizeFacts.NullPropertyThrows | src/index.js:191-193 | a member of `properties` that looks up to null makes the whole lookup throw |
| NormalizeFacts.ChildFailureThrows | src/index.js:184-194 | any member whose child throws makes the walk over `properties` throw |
| NormalizeFacts.ItemsTakePrecedence | src/index.js:161-169 | `items` wins: a successful lookup of the item made the node an `array` without `items`, whose children are that item, or none when it is null |
| NormalizeFacts.ItemsLeaveOtherShapes | src/index.js:161-169 | after `items`, the members `allOf`, `properties` and `requireds` are left as they were |
| NormalizeFacts.AllOfBeforeProperties | src/index.js:169-179 | without `items`, a successful `allOf` was a list whose walk succeeded, and the node is an `array` without `allOf` whose children are that walk's kept results |
| NormalizeFacts.AllOfLeavesProperties | src/index.js:169-179 | after `allOf`, the members `properties` and `requireds` are left as they were |
| NormalizeFacts.PropertiesLast | src/index.js:179-198 | only `properties` present: the walk over its members succeeded, and the node is an `object` without `properties` or `requireds` holding one child per member, in order, each being that member's `PropertyChild` and flagged under its name |
| NormalizeFacts.AllChildrenSucceed | src/index.js:184-194 | the converse of `Normalize.LookupProperties`: when every member's child succeeds, the walk returns exactly those children, in order |
| NormalizeFacts.RequiredStamping | src/index.js:179-198 | `{type: object, properties: {id: {type: string}, name: {type: string}}, required: [id]}` looks up to an `object` node with exactly the children `{name: id, type: string, required: true}` and `{name: name, type: string, required: false}` |
| NormalizeFacts.PrepareMergesTarget | src/index.js:131-154 | a followed pointer: the target's members overwrite the fragment's and the fragment's own `$ref` is gone |
| NormalizeFacts.PrepareHoistsSchema | src/index.js:146-154 | an inline `schema` without a pointer: its members overwrite the fragment's |
| NormalizeFacts.PlainFragment | src/index.js:200-212 | a fragment with no pointer, schema, `required` list or shape member is only type-folded |
| NormalizeFacts.IntegerBecomesNumber | src/index.js:201-205 | `{type: integer}` looks up to `{type: number, format: int64}` |
| NormalizeFacts.IntegerKeepsFormat | src/index.js:201-205 | an explicit `format` survives the folding of `integer` |
| NormalizeFacts.FoldIntegerWithFormat | src/index.js:201-205 | folding `{type: integer, format: int32}` changes only the type |
| Serialize.Stringify | src/index.js:219 | serialised text never starts with a closing bracket, brace or comma |
| Serialize.ReadStringify | src/index.js:219 | reading the serialised value back gives the value and stops right after it |
| Serialize.StringifyInjective | src/index.js:219 | two values serialise alike exactly when they are equal, member order included |
| Serialize.StringifyOptInjective | src/index.js:219 | the same for values that may be undefined |
| Methods.IsMethodMatchesPattern | src/index.js:72 | the method pattern accepts a key exactly when it starts with `get`, contains `delete`, `head`, `options`, `post` or `put`, or ends with `patch` |
| Methods.LooseMatches | src/index.js:72 | `getUsers` and `input` count as methods, because only the outer alternatives are anchored |
| Methods.ParametersIsNotMethod | src/index.js:72 | the path-level `parameters` key is never taken for an operation |
| Methods.ResponsesIsNotMethod | src/index.js:72 | the path-level `responses` key is never taken for an operation |
| Methods.PatchesIsNotMethod | src/index.js:72 | `patch` is anchored at the end, so `patches` is not a method |
| Siwa.Decode | src/index.js:15-29 | an object is taken as it is, a string is decoded by the loader, and a decoding error or any other input leaves null |
| Siwa.Resolve | src/index.js:13-42 | a document without truthy `definitions` is the decoded input, and the result is an object exactly when the decoded input is |
| Siwa.ResolvedDefinitions | src/index.js:31-39 | only `definitions` is rebuilt: it names exactly the truthy definitions, each expanded, and every other member is kept |
| Siwa.CompareIsEquality | src/index.js:215-220 | two documents compare equal exactly when the current one equals the other once resolved, member order included |
| Siwa.CompareSeesMemberOrder | src/index.js:215-220 | two documents with the same members in a different order compare unequal |
| Siwa.FirstTruthy | src/index.js:79 | `a \|\| b \|\| c \|\| d` yields the first truthy candidate, or the default when none is truthy, so a truthy default gives a truthy result |
| Siwa.Parameters | src/index.js:78-100 | a value that is neither a map nor a list gives no parameters, and a lookup never throws a specification error |
| Siwa.Responses | src/index.js:103-118 | only a map yields responses |
| Siwa.Operation | src/index.js:75-79 | a null operation throws; a non-object operation comes back unchanged; an object stays an object |
| Siwa.Operations | src/index.js:71-119 | a path item that is not an object has no operations and comes back unchanged |
| Siwa.PathItem | src/index.js:55-68 | a null item throws; the path is dropped exactly when its truthy `$ref` leads nowhere |
| Siwa.WalkPathList | src/index.js:55-68 | a list of paths keeps its length; element i is the processed i-th path item, or null (a hole) where that path was dropped |
| Siwa.Parse | src/index.js:44-123 | the swagger error is thrown exactly when the document is missing or not `swagger: "2.0"`; the paths error exactly when it is but `paths` is falsy; a result is the validated document object |
| Siwa.ParseDocument | src/index.js:274-277 | a successful `Siwa.parse` comes from an input that resolves to an object |
| SiwaFacts.MapParametersInKeyOrder | src/index.js:80-91 | a map of parameters becomes the list of its looked-up `{name, ...entry}` fragments, in key order |
| SiwaFacts.ListParametersDropNull | src/index.js:92-98 | a list entry that looks up to null is dropped and the others are kept in order |
| SiwaFacts.ListParametersInOrder | src/index.js:92-98 | a list whose entries all look up to nodes keeps them all, in order |
| SiwaFacts.ResponsesByName | src/index.js:105-116 | the responses map holds, under each original name, the looked-up `{name, ...entry}`, and nothing where that lookup is null |
| SiwaFacts.OperationContents | src/index.js:78-118 | a normalised operation holds its looked-up parameters as a list and its responses as a map, each chosen along operation, path item, document, and keeps every other member |
| SiwaFacts.MethodsByKey | src/index.js:71-75 | under a method key a path item holds its normalised operation; every other member keeps its value |
| SiwaFacts.MethodsKeepKeyOrder | src/index.js:71-119 | a path item keeps its member names and their order |
| SiwaFacts.FallbacksSurviveTheWalk | src/index.js:79 | without aliasing, walking the operations never changes the path item's own `parameters` and `responses`, so every operation falls back to the same values |
| SiwaFacts.PathsByKey | src/index.js:55-68 | each surviving path holds its processed item, and nothing else is in `paths` |
| SiwaFacts.DanglingPathIsDropped | src/index.js:63-66 | a path whose `$ref` does not resolve is deleted from `paths` |
| SiwaFacts.NullPathThrows | src/index.js:58 | a null path item anywhere in `paths` makes `parse` throw |
| SiwaFacts.ParseContents | src/index.js:44-123 | `parse` rewrites only `paths`: an object of paths is walked member by member, and every other member of the document is kept |

## Left out

- YAML decoding (`yaml.safeLoad`) is the parameter `load` of `Siwa.Resolve`. `console.log` and `console.error` output is not modelled.
- Buffer, Date, RegExp, Promise, function, symbol and error values: `getType` can name them, but the JSON datatype cannot hold them. `Siwa.Decode` therefore meets only JSON values.
- The `validate` and `_validate` stubs (src/index.js:222-228) have empty bodies, so there is nothing to model.
- The static `Siwa.compare` (src/index.js:279-282) calls `require` with its argument, which is a module load.
- The constructor guard (src/index.js:6) never fires, because `!this instanceof Siwa` is always false. The model starts from `resolve`.
- Strings are sequences of characters. UTF-16 code units, escape spelling and number spelling in JSON text are below the token level of `Serialize`.
- JavaScript orders integer-like member names first. The model keeps the order of the decoded member list instead.
- Aliasing is not modelled. Each `lookup` works on its own copy of its fragment. In the source, an operation object shared by several paths, or a fallback object shared by several operations, is rewritten in place and seen rewritten by later visits.
- SiwaFacts.FallbacksSurviveTheWalk, SiwaFacts.MethodsByKey, SiwaFacts.ParseContents: these hold only when nothing is aliased. In the source, a fallback is taken by reference (src/index.js:79, :104), and `lookup` rewrites the fragments it reaches in place: list elements at :96, an inline `schema.required` at :147-149, nested `items` at :165, and integer types at :203-204. So `parse`'s result shows the path item's own, or the document's own, `parameters` and `responses` rewritten by those lookups, even when only one operation uses them. For example, `{swagger: "2.0", paths: {"/u/{id}": {parameters: [{name: "id", in: "path", type: "integer"}], get: {}}}}` comes out with the path item's `parameters[0]` as `{name: "id", in: "path", type: "number", format: "int64"}`; the model keeps `type: "integer"` there.
- Parse: reads every pointer against the document as `parse` received it. The source reads the same object while rewriting `paths` in place, so a pointer into `paths` can see an item that was already rewritten.
- Definitions.Defer: rewrites the tree, not the serialised text. The source edits the `JSON.stringify` text with two regular expressions. The first (src/index.js:253) also swallows the comma after each `$ref` member it replaces. The second (src/index.js:270) deletes the comma of every `",` not followed by a quote. The text result equals the model's result only when two conditions hold. (a) Every `$ref` member replaced by the marker or by an expansion is the last member of its object. Every dropped `$ref` member is followed by another member, is the only member, or comes right after a member whose value is a string. No list has a string element followed by an element that is not a string. (b) No string and no member name contains a quote followed by a comma that is not its last character. When (a) fails, the text is not valid JSON and `JSON.parse` throws in `resolve` (src/index.js:36); the model raises no such exception. For example, `{"minimum":1,"$ref":"#/definitions/Missing"}` becomes `{"minimum":1,}`. When (b) fails, the text stays valid, and the source silently removes that comma from the string or name; the model keeps it.
- Definitions.RefName: a name that needs escaping in JSON text (a quote, a backslash or a control character) is not taken as a reference, and the model keeps such a `$ref` member in place. The source's pattern captures the escaped spelling instead. The definition under that spelling is usually missing, so the source drops the member. A name with a quote cuts the match short and leaves broken text, so `JSON.parse` throws.
- Definitions.Defer: the path check reads `stack[$1]`, which also looks in `Object.prototype`. A definition named like an inherited property, such as `constructor`, is taken as already on the path. The model checks membership in the set of visited names.
- JsValues.OwnEntries, Pointers.GetRef, Siwa.Resolve, Siwa.Parameters, Siwa.Responses, Normalize.LookupProperties: members inherited from `Object.prototype` are not modelled, and this has two effects. First, the source's member loops call `obj.hasOwnProperty(name)` on the map itself: on `definitions` (src/index.js:34), a parameters map (:82), a responses map (:107) and a schema's `properties` (:185). An own member named `hasOwnProperty` shadows that method, so the first iteration throws a `TypeError` ("is not a function"). For example, `responses: {hasOwnProperty: {description: "x"}}` makes `parse` throw, and such a member of `definitions` makes `resolve` and the constructor throw. The model visits such a member like any other, and `Siwa.Resolve` cannot fail at all. Second, `getRef` reads `spec[refs[1]][refs[2]]` (src/index.js:239), which also finds inherited properties. So `$ref: "#/constructor/name"` gives `"Object"` in the source, while `JsValues.Member` reads own members only and the model gives null.
- Normalize.Lookup: the stack limit is the parameter `fuel`, and running out is the failure `StackOverflow`. `NormalizeFacts.LookupFuelMonotone` and `NormalizeFacts.LookupDeeper` show that the outcome does not depend on the bound once it is large enough.
- Siwa.Operation: assumes the source runs in sloppy mode. Writes to a primitive operation are silently ignored. Writes to a list operation land on properties that serialisation does not show, so for lists only their exceptions are modelled.
- Siwa.WalkPathList: `delete` on a list leaves a hole, which serialises as null. The model writes null there.
- JsValues.Json: a number is a `real`, standing for a JavaScript double. NaN and the infinities, which YAML can produce, cannot be represented; `JSON.stringify` would write them as null. Rounding is not modelled either.
- Siwa.NormalizeOperation, Siwa.WalkMethods, Siwa.WalkPaths: their own contracts state only that they never raise a specification error. Their contents are stated by `SiwaFacts.OperationContents`, `SiwaFacts.MethodsByKey`, `SiwaFacts.MethodsKeepKeyOrder` and `SiwaFacts.PathsByKey`.
