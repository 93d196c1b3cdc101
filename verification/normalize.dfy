/** The fragment normaliser `lookup`: one parameter, response or schema
    fragment is resolved (`$ref`, `schema.$ref`), its `schema` hoisted, its
    `required` list renamed `requireds`, and its `items` / `allOf` /
    `properties` folded into `type` plus an ordered `children` list whose
    object members carry a `required` flag; `integer` is folded into `number`.

    The source recursion has no bound of its own: references among sections
    other than `definitions` can lead it round a cycle until the engine's stack
    overflows. `fuel` is that limit: each nested call spends one frame, and a
    call with none left fails with `StackOverflow`. */
module Normalize {
  import opened Wrappers
  import opened JsValues
  import opened Utils
  import opened Pointers

  /** The stack frames still available to the recursion. */
  datatype Fuel = Empty | More(rest: Fuel)

  /** A stack of `n` frames. */
  function Frames(n: nat): (f: Fuel)
    ensures n == 0 <==> f.Empty?
  {
    if n == 0 then Empty else More(Frames(n - 1))
  }

  /** `deep` is `shallow` with some frames added on top. */
  predicate Deeper(deep: Fuel, shallow: Fuel)
    decreases deep
  {
    deep == shallow || (deep.More? && Deeper(deep.rest, shallow))
  }

  // ---------------------------------------------------------------------------
  // Search helpers behind `requireds.indexOf(name)`

  /** `a.indexOf(x)` for a string `x`: the first position holding it, or -1. */
  function IndexOf(a: seq<Json>, x: string): (r: int)
    ensures -1 <= r < |a|
    ensures r == -1 <==> JStr(x) !in a
    ensures r >= 0 ==> a[r] == JStr(x) && JStr(x) !in a[..r]
    decreases |a|
  {
    if |a| == 0 then -1
    else if a[0] == JStr(x) then 0
    else
      var r := IndexOf(a[1..], x);
      assert a == [a[0]] + a[1..];
      if r == -1 then -1
      else
        assert a[..r + 1] == [a[0]] + a[1..][..r];
        r + 1
  }

  /** `s.indexOf(sub, from)`: the first position at or after `from` where `sub`
      occurs, or -1. */
  function StrIndexOf(s: string, sub: string, from: nat): (r: int)
    ensures r == -1 <==> forall i :: from <= i <= |s| ==> !OccursAt(s, sub, i)
    ensures r >= 0 ==> from <= r && OccursAt(s, sub, r) && forall i :: from <= i < r ==> !OccursAt(s, sub, i)
    decreases |s| + 1 - from
  {
    if from + |sub| > |s| then
      assert forall i :: from <= i <= |s| ==> !OccursAt(s, sub, i);
      -1
    else if s[from..from + |sub|] == sub then
      assert OccursAt(s, sub, from);
      from
    else StrIndexOf(s, sub, from + 1)
  }

  /** `!!~requireds.indexOf(name)`: whether `name` is listed in `requireds` (for
      a string, whether it occurs in it); `None` when `requireds` has no
      `indexOf`, which throws. */
  function RequiredOf(requireds: Json, name: string): (r: Option<bool>)
    ensures requireds.JArr? ==> r == Some(JStr(name) in requireds.items)
    ensures requireds.JStr? ==> r == Some(exists i :: 0 <= i <= |requireds.s| && OccursAt(requireds.s, name, i))
    ensures !(requireds.JArr? || requireds.JStr?) ==> r.None?
  {
    match requireds
    case JArr(a) => Some(IndexOf(a, name) != -1)
    case JStr(s) => Some(StrIndexOf(s, name, 0) != -1)
    case _ => None
  }

  // ---------------------------------------------------------------------------
  // The stages of one fragment

  /** The pointer a fragment names: `schema.$ref` when `schema` is truthy,
      otherwise its own `$ref`. */
  function PointerOf(fs: Fields): Option<Json> {
    var schema := Get(fs, "schema");
    if Truthy(schema) then Prop(schema.value, "$ref") else Get(fs, "$ref")
  }

  /** A pointer that is itself a nested-reference marker. */
  predicate IsNestedPointer(ptr: Option<Json>) {
    Truthy(ptr) && Truthy(Prop(ptr.value, "nested"))
  }

  /** `isType(v, "array")`, which `Utils.IsType` shows is exactly this. */
  predicate IsList(v: Option<Json>) {
    v.Some? && v.value.JArr?
  }

  /** A `required` member that is a list is renamed `requireds`, so that
      `required` is left for the per-child flag. */
  function RenameRequired(fs: Fields): (r: Fields)
    ensures IsList(Get(fs, "required")) ==>
      Get(r, "requireds") == Get(fs, "required") && Get(r, "required") == None
    ensures !IsList(Get(fs, "required")) ==> r == fs
    ensures Get(r, "schema") == Get(fs, "schema")
    ensures DistinctKeys(fs) ==> DistinctKeys(r)
  {
    var req := Get(fs, "required");
    if IsList(req) then
      SetShape(fs, "requireds", req.value);
      DeleteShape(Set(fs, "requireds", req.value), "required");
      Delete(Set(fs, "requireds", req.value), "required")
    else fs
  }

  /** Renaming touches no member but `required` and `requireds`. */
  lemma RenameRequiredFrame(fs: Fields)
    ensures forall k :: k != "required" && k != "requireds" ==> Get(RenameRequired(fs), k) == Get(fs, k)
  {
  }

  /** The schema as it is merged: with a `required` list renamed. */
  function RenamedSchema(schema: Json): Json {
    if schema.JObj? then JObj(RenameRequired(schema.fields)) else schema
  }

  /** The members a truthy `schema` contributes to the fragment. */
  function SchemaEntries(fs: Fields): Fields
    requires Truthy(Get(fs, "schema"))
  {
    OwnEntries(RenamedSchema(Get(fs, "schema").value))
  }

  /** Hoisting: when `schema` is truthy its members overwrite the fragment's
      and `schema` itself is removed. */
  function Hoist(fs: Fields): (r: Fields)
    ensures !Truthy(Get(fs, "schema")) ==> r == fs
    ensures Truthy(Get(fs, "schema")) ==> Get(r, "schema") == None
  {
    var schema := Get(fs, "schema");
    if !Truthy(schema) then fs
    else
      var s := RenamedSchema(schema.value);
      Delete(Assign(Set(fs, "schema", s), OwnEntries(s)), "schema")
  }

  /** What hoisting leaves: the schema's members over the fragment's, and no
      `schema`. */
  lemma HoistContents(fs: Fields)
    requires Truthy(Get(fs, "schema"))
    ensures Keys(Hoist(fs)) == (Keys(fs) + Keys(SchemaEntries(fs))) - {"schema"}
    ensures DistinctKeys(SchemaEntries(fs)) ==>
      forall k :: k != "schema" ==>
        Get(Hoist(fs), k) == if k in Keys(SchemaEntries(fs)) then Get(SchemaEntries(fs), k) else Get(fs, k)
  {
    var s := RenamedSchema(Get(fs, "schema").value);
    SetShape(fs, "schema", s);
    AssignContents(Set(fs, "schema", s), OwnEntries(s));
    DeleteShape(Assign(Set(fs, "schema", s), OwnEntries(s)), "schema");
  }

  /** The fragment `{name: name, ...entry}` built for a named member. */
  function NamedFragment(name: string, entry: Json): Fields {
    Assign([("name", JStr(name))], OwnEntries(entry))
  }

  /** The named fragment leads with `name`, which the entry's own `name`
      overrides, and otherwise holds exactly the entry's members. */
  lemma NamedFragmentContents(name: string, entry: Json)
    ensures var r := NamedFragment(name, entry);
      && Keys(r) == {"name"} + Keys(OwnEntries(entry))
      && r[0].0 == "name"
    ensures DistinctKeys(OwnEntries(entry)) ==>
      && Get(NamedFragment(name, entry), "name") ==
           (if "name" in Keys(OwnEntries(entry)) then Get(OwnEntries(entry), "name") else Some(JStr(name)))
      && forall k :: k != "name" ==> Get(NamedFragment(name, entry), k) == Get(OwnEntries(entry), k)
  {
    AssignContents([("name", JStr(name))], OwnEntries(entry));
    AssignKeepsFirstKey([("name", JStr(name))], OwnEntries(entry));
  }

  /** `Object.assign` never moves the members already in its target. */
  lemma {:induction false} AssignKeepsFirstKey(target: Fields, source: Fields)
    requires |target| > 0
    ensures |Assign(target, source)| > 0 && Assign(target, source)[0].0 == target[0].0
    decreases |source|
  {
    if |source| > 0 {
      var t := Set(target, source[0].0, source[0].1);
      if source[0].0 !in Keys(target) {
        assert t[0] == target[0];
      } else {
        assert KeySeq(t)[0] == KeySeq(target)[0];
      }
      AssignKeepsFirstKey(t, source[1..]);
    }
  }

  /** The final pass: `integer` becomes `number` with `format` defaulting to
      `int64`, and an `array` or `object` node gets `children`, empty by
      default. */
  function FoldType(fs: Fields): (r: Fields)
    ensures Get(fs, "type") == Some(JStr("integer")) ==>
      && Get(r, "type") == Some(JStr("number"))
      && Get(r, "format") == (if Truthy(Get(fs, "format")) then Get(fs, "format") else Some(JStr("int64")))
    ensures Get(fs, "type") in {Some(JStr("array")), Some(JStr("object"))} ==>
      && Truthy(Get(r, "children"))
      && (!Truthy(Get(fs, "children")) ==> Get(r, "children") == Some(JArr([])))
    ensures Get(fs, "type") !in {Some(JStr("integer")), Some(JStr("array")), Some(JStr("object"))} ==> r == fs
    ensures !Truthy(Get(fs, "schema")) ==> Normalized(r)
  {
    var t := Get(fs, "type");
    if t == Some(JStr("integer")) then
      var f := Get(fs, "format");
      Set(Set(fs, "type", JStr("number")), "format", if Truthy(f) then f.value else JStr("int64"))
    else if t == Some(JStr("array")) || t == Some(JStr("object")) then
      var c := Get(fs, "children");
      Set(fs, "children", if Truthy(c) then c.value else JArr([]))
    else fs
  }

  /** Folding touches only `type` and `format` of an `integer` node, and only
      `children` of an `array` or `object` node. */
  lemma FoldTypeFrame(fs: Fields)
    ensures Get(fs, "type") == Some(JStr("integer")) ==>
      forall k :: k != "type" && k != "format" ==> Get(FoldType(fs), k) == Get(fs, k)
    ensures Get(fs, "type") in {Some(JStr("array")), Some(JStr("object"))} ==>
      forall k :: k != "children" ==> Get(FoldType(fs), k) == Get(fs, k)
  {
  }

  /** The `children` list of a node, when it is one. */
  predicate HasChildList(fs: Fields, max: nat) {
    var c := Get(fs, "children");
    c.Some? && c.value.JArr? && |c.value.items| <= max
  }

  /** The shape of a finished (non-marker) node: no truthy `schema` is left,
      `integer` has been folded, and an `array` or `object` node has truthy
      `children`. */
  predicate Normalized(fs: Fields) {
    && !Truthy(Get(fs, "schema"))
    && Get(fs, "type") != Some(JStr("integer"))
    && (Get(fs, "type") in {Some(JStr("array")), Some(JStr("object"))} ==> Truthy(Get(fs, "children")))
  }

  // ---------------------------------------------------------------------------
  // The recursion

  /** A fragment whose pointer is not a marker and leads nowhere. */
  predicate Dangling(spec: Option<Json>, fs: Fields) {
    var ptr := PointerOf(fs);
    !IsNestedPointer(ptr) && Truthy(ptr) && !Truthy(GetRef(spec, ptr))
  }

  /** The fragment once its pointer target is installed as `schema`, the
      schema hoisted, and `required` renamed. */
  function Prepare(spec: Option<Json>, fs: Fields): (r: Fields)
    requires Truthy(PointerOf(fs)) ==> Truthy(GetRef(spec, PointerOf(fs)))
    ensures !Truthy(Get(r, "schema"))
  {
    var ptr := PointerOf(fs);
    var resolved := if Truthy(ptr) then Set(Delete(fs, "$ref"), "schema", GetRef(spec, ptr).value) else fs;
    RenameRequired(Hoist(resolved))
  }

  /** `lookup(p)` against the resolved document `spec`: `Success(None)` is a
      null result (the fragment is dropped), `Failure` an exception. */
  function Lookup(spec: Option<Json>, fuel: Fuel, p: Json): (r: Result<Option<Json>, Exception>)
    ensures r.Success? && r.value.Some? ==> r.value.value.JObj?
    ensures r.Failure? ==> !r.error.SpecificationError?
    ensures p.JObj? && !IsNestedPointer(PointerOf(p.fields)) && r.Success? && r.value.Some? ==>
      Normalized(r.value.value.fields)
    decreases fuel, 0, 0
  {
    if fuel.Empty? then Failure(StackOverflow)
    else if !p.JObj? then Success(None)  // isType(p, "object")
    else
      var ptr := PointerOf(p.fields);
      if IsNestedPointer(ptr) then Success(ptr)
      else if Truthy(ptr) && !Truthy(GetRef(spec, ptr)) then Success(None)
      else
        var flat := Prepare(spec, p.fields);
        match Unify(spec, fuel.rest, flat)
        case Failure(e) => Failure(e)
        case Success(u) => Success(Some(JObj(FoldType(u))))
  }

  /** A node reshaped into `type` `t` with the list `children`, its shape
      member `drop` removed. */
  function Reshape(fs: Fields, t: string, children: seq<Json>, drop: string): (r: Fields)
    requires drop != "type" && drop != "children"
    ensures Get(r, "type") == Some(JStr(t)) && Get(r, "children") == Some(JArr(children))
    ensures Get(r, drop) == None
  {
    var base := Set(Set(fs, "type", JStr(t)), "children", JArr([]));
    Delete(Set(base, "children", JArr(children)), drop)
  }

  /** Reshaping touches no member but `type`, `children` and `drop`. */
  lemma ReshapeFrame(fs: Fields, t: string, children: seq<Json>, drop: string)
    requires drop != "type" && drop != "children"
    ensures forall k :: k != "type" && k != "children" && k != drop ==>
      Get(Reshape(fs, t, children, drop), k) == Get(fs, k)
  {
  }

  /** The shape fields folded into `type` and `children`, with `items` taking
      precedence over `allOf`, and `allOf` over `properties`: the shape members
      of lower precedence are left in place. */
  function Unify(spec: Option<Json>, fuel: Fuel, fs: Fields): (r: Result<Fields, Exception>)
    ensures r.Failure? ==> !r.error.SpecificationError?
    ensures r.Success? ==> Get(r.value, "schema") == Get(fs, "schema")
    ensures !Truthy(Get(fs, "items")) && !Truthy(Get(fs, "allOf")) && !Truthy(Get(fs, "properties")) ==>
      r == Success(fs)
    decreases fuel, 3, 0
  {
    if Truthy(Get(fs, "items")) then UnifyItems(spec, fuel, fs)
    else if Truthy(Get(fs, "allOf")) then UnifyAllOf(spec, fuel, fs)
    else if Truthy(Get(fs, "properties")) then UnifyProperties(spec, fuel, fs)
    else Success(fs)
  }

  /** `items`: an `array` node whose one child is the looked-up item, or none
      when the item is null; an exception from the item's lookup is the node's. */
  function UnifyItems(spec: Option<Json>, fuel: Fuel, fs: Fields): (r: Result<Fields, Exception>)
    requires Truthy(Get(fs, "items"))
    ensures r.Failure? ==> !r.error.SpecificationError?
    ensures r.Success? <==> Lookup(spec, fuel, Get(fs, "items").value).Success?
    ensures r.Success? ==>
      && Get(r.value, "type") == Some(JStr("array")) && Get(r.value, "items") == None
      && HasChildList(r.value, 1) && Get(r.value, "schema") == Get(fs, "schema")
    ensures r.Success? ==>
      var item := Lookup(spec, fuel, Get(fs, "items").value).value;
      Get(r.value, "children") == Some(JArr(if item.Some? then [item.value] else []))
    decreases fuel, 2, 0
  {
    match Lookup(spec, fuel, Get(fs, "items").value)
    case Failure(e) => Failure(e)
    case Success(item) =>
      var children := if item.Some? then [item.value] else [];
      ReshapeFrame(fs, "array", children, "items");
      Success(Reshape(fs, "array", children, "items"))
  }

  /** `allOf`: an `array` node whose children are the non-null lookups of the
      list's members, in order; a value that is not a list has no `forEach`
      and throws. */
  function UnifyAllOf(spec: Option<Json>, fuel: Fuel, fs: Fields): (r: Result<Fields, Exception>)
    requires Truthy(Get(fs, "allOf"))
    ensures r.Failure? ==> !r.error.SpecificationError?
    ensures !Get(fs, "allOf").value.JArr? ==> r == Failure(TypeError)
    ensures Get(fs, "allOf").value.JArr? ==>
      (r.Success? <==> LookupEach(spec, fuel, Get(fs, "allOf").value.items).Success?)
    ensures r.Success? ==>
      && Get(r.value, "type") == Some(JStr("array")) && Get(r.value, "allOf") == None
      && HasChildList(r.value, |Get(fs, "allOf").value.items|) && Get(r.value, "schema") == Get(fs, "schema")
    ensures r.Success? ==>
      Get(r.value, "children") == Some(JArr(LookupEach(spec, fuel, Get(fs, "allOf").value.items).value))
    decreases fuel, 2, 0
  {
    var allOf := Get(fs, "allOf").value;
    if !allOf.JArr? then Failure(TypeError)
    else
      match LookupEach(spec, fuel, allOf.items)
      case Failure(e) => Failure(e)
      case Success(children) =>
        ReshapeFrame(fs, "array", children, "allOf");
        Success(Reshape(fs, "array", children, "allOf"))
  }

  /** `p.requireds || []`: the names whose children are flagged required. */
  function RequiredsOf(fs: Fields): (r: Json)
    ensures Truthy(Get(fs, "requireds")) ==> Some(r) == Get(fs, "requireds")
    ensures !Truthy(Get(fs, "requireds")) ==> r == JArr([])
  {
    var declared := Get(fs, "requireds");
    if Truthy(declared) then declared.value else JArr([])
  }

  /** `properties`: an `object` node with one child per member, in member
      order, flagged from `requireds` (an empty list when it is falsy), and
      without `requireds`. */
  function UnifyProperties(spec: Option<Json>, fuel: Fuel, fs: Fields): (r: Result<Fields, Exception>)
    requires Truthy(Get(fs, "properties"))
    ensures r.Failure? ==> !r.error.SpecificationError?
    ensures r.Success? <==>
      LookupProperties(spec, fuel, OwnEntries(Get(fs, "properties").value), RequiredsOf(fs)).Success?
    ensures r.Success? ==>
      && Get(r.value, "type") == Some(JStr("object"))
      && Get(r.value, "properties") == None && Get(r.value, "requireds") == None
      && HasChildList(r.value, |OwnEntries(Get(fs, "properties").value)|)
      && Get(r.value, "schema") == Get(fs, "schema")
    ensures r.Success? ==>
      Get(r.value, "children") ==
        Some(JArr(LookupProperties(spec, fuel, OwnEntries(Get(fs, "properties").value), RequiredsOf(fs)).value))
    decreases fuel, 2, 0
  {
    match LookupProperties(spec, fuel, OwnEntries(Get(fs, "properties").value), RequiredsOf(fs))
    case Failure(e) => Failure(e)
    case Success(children) => Success(PropertiesNode(fs, children))
  }

  /** The `object` node built from the children of `properties`. */
  function PropertiesNode(fs: Fields, children: seq<Json>): (r: Fields)
    ensures Get(r, "type") == Some(JStr("object")) && Get(r, "children") == Some(JArr(children))
    ensures Get(r, "properties") == None && Get(r, "requireds") == None
    ensures Get(r, "schema") == Get(fs, "schema")
  {
    ReshapeFrame(fs, "object", children, "requireds");
    Delete(Reshape(fs, "object", children, "requireds"), "properties")
  }

  /** `lookup` on each fragment in order, keeping the non-null results; the
      first exception ends the walk. */
  function LookupEach(spec: Option<Json>, fuel: Fuel, xs: seq<Json>): (r: Result<seq<Json>, Exception>)
    ensures r.Failure? ==> !r.error.SpecificationError?
    ensures r.Success? ==> |r.value| <= |xs| && forall i :: 0 <= i < |r.value| ==> r.value[i].JObj?
    decreases fuel, 1, |xs|
  {
    if |xs| == 0 then Success([])
    else
      match Lookup(spec, fuel, xs[0])
      case Failure(e) => Failure(e)
      case Success(head) =>
        match LookupEach(spec, fuel, xs[1..])
        case Failure(e) => Failure(e)
        case Success(rest) => Success(if head.Some? then [head.value] + rest else rest)
  }

  /** A looked-up child with its `required` flag written. */
  function Stamp(item: Json, flag: bool): (r: Json)
    requires item.JObj?
    ensures r.JObj? && Get(r.fields, "required") == Some(JBool(flag))
  {
    JObj(Set(item.fields, "required", JBool(flag)))
  }

  /** Stamping writes `required` and nothing else. */
  lemma StampFrame(item: Json, flag: bool)
    requires item.JObj?
    ensures forall k :: k != "required" ==> Get(Stamp(item, flag).fields, k) == Get(item.fields, k)
  {
  }

  /** A child of an `object` node carrying the `required` flag of its name. */
  predicate Flagged(child: Json, requireds: Json, name: string) {
    && child.JObj?
    && RequiredOf(requireds, name).Some?
    && Get(child.fields, "required") == Some(JBool(RequiredOf(requireds, name).value))
  }

  /** The fragment a member `name: entry` of `properties` is looked up as. */
  function PropertyFragment(member: (string, Json)): Json {
    JObj(NamedFragment(member.0, member.1))
  }

  /** The child for one member `name: entry` of `properties`: the member is
      looked up as `{name, ...entry}` and stamped with `required` from
      `requireds`. A null lookup throws, because the flag is written before
      any null check; so does a `requireds` without `indexOf`. */
  function PropertyChild(spec: Option<Json>, fuel: Fuel, member: (string, Json), requireds: Json)
    : (r: Result<Json, Exception>)
    ensures r.Failure? ==> !r.error.SpecificationError?
    ensures r.Success? ==> Flagged(r.value, requireds, member.0)
    ensures r.Success? ==>
      && Lookup(spec, fuel, PropertyFragment(member)).Success?
      && Lookup(spec, fuel, PropertyFragment(member)).value.Some?
      && RequiredOf(requireds, member.0).Some?
      && r.value == Stamp(Lookup(spec, fuel, PropertyFragment(member)).value.value, RequiredOf(requireds, member.0).value)
    ensures Lookup(spec, fuel, PropertyFragment(member)) == Success(None) ==> r.Failure?
    ensures !(requireds.JArr? || requireds.JStr?) ==> r.Failure?
    decreases fuel, 0, 1
  {
    match Lookup(spec, fuel, PropertyFragment(member))
    case Failure(e) => Failure(e)
    case Success(item) =>
      if item.None? then Failure(TypeError)
      else
        match RequiredOf(requireds, member.0)
        case None => Failure(TypeError)
        case Some(flag) => Success(Stamp(item.value, flag))
  }

  /** The children of a `properties` map, one per member and in order; the
      first exception ends the walk. */
  function LookupProperties(spec: Option<Json>, fuel: Fuel, entries: Fields, requireds: Json)
    : (r: Result<seq<Json>, Exception>)
    ensures r.Failure? ==> !r.error.SpecificationError?
    ensures r.Success? ==> |r.value| == |entries|
    ensures r.Success? ==> forall i {:trigger Flagged(r.value[i], requireds, entries[i].0)} :: 0 <= i < |entries| ==>
      Flagged(r.value[i], requireds, entries[i].0)
    ensures r.Success? ==> forall i {:trigger PropertyChild(spec, fuel, entries[i], requireds)} :: 0 <= i < |entries| ==>
      PropertyChild(spec, fuel, entries[i], requireds) == Success(r.value[i])
    ensures |entries| > 0 && !(requireds.JArr? || requireds.JStr?) ==> r.Failure?
    decreases fuel, 1, |entries|
  {
    if |entries| == 0 then Success([])
    else
      match PropertyChild(spec, fuel, entries[0], requireds)
      case Failure(e) => Failure(e)
      case Success(child) =>
        match LookupProperties(spec, fuel, entries[1..], requireds)
        case Failure(e) => Failure(e)
        case Success(rest) =>
          FlaggedCons(child, rest, entries, requireds);
          ConsShift(child, rest, entries);
          Success([child] + rest)
  }

  /** Positions after the first of a cons are those of its tail. */
  lemma ConsShift(child: Json, rest: seq<Json>, entries: Fields)
    requires |entries| > 0 && |rest| == |entries| - 1
    ensures forall i :: 1 <= i < |entries| ==> entries[i] == entries[1..][i - 1] && ([child] + rest)[i] == rest[i - 1]
  {
  }

  /** Flags line up with names through a cons. */
  lemma FlaggedCons(child: Json, rest: seq<Json>, entries: Fields, requireds: Json)
    requires |entries| > 0 && |rest| == |entries| - 1
    requires Flagged(child, requireds, entries[0].0)
    requires forall i :: 0 <= i < |rest| ==> Flagged(rest[i], requireds, entries[1..][i].0)
    ensures forall i :: 0 <= i < |entries| ==> Flagged(([child] + rest)[i], requireds, entries[i].0)
  {
    forall i | 0 <= i < |entries| ensures Flagged(([child] + rest)[i], requireds, entries[i].0) {
      if i > 0 {
        assert ([child] + rest)[i] == rest[i - 1];
        assert entries[i] == entries[1..][i - 1];
      }
    }
  }
}
