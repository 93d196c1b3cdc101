/** The document-level driver: `resolve` reads a document and rebuilds its
    `definitions`, `parse` validates it and normalizes every operation under
    `paths`, and `compare` tests two documents for equal serialized forms. */
module Siwa {
  import opened Wrappers
  import opened JsValues
  import opened Utils
  import opened Pointers
  import opened Definitions
  import opened Normalize
  import opened Serialize
  import opened Methods

  // ---------------------------------------------------------------------------
  // resolve

  /** What the YAML loader gives for a string: a value (undefined for an empty
      document), or an error. */
  datatype Loaded = LoadFailed | Loaded(value: Option<Json>)

  /** The document as read: a plain object is copied, a string is decoded by
      `load`; anything else, or a decoding error, leaves null. */
  function Decode(input: Option<Json>, load: string -> Loaded): (r: Option<Json>)
    ensures GetType(input) == "object" ==> r == input
    ensures GetType(input) == "string" && load(input.value.s).Loaded? ==> r == load(input.value.s).value
    ensures GetType(input) == "string" && load(input.value.s).LoadFailed? ==> r == Some(JNull)
    ensures GetType(input) != "object" && GetType(input) != "string" ==> r == Some(JNull)
  {
    match GetType(input)
    case "object" => input
    case "string" =>
      (match load(input.value.s)
       case LoadFailed => Some(JNull)
       case Loaded(v) => v)
    case _ => Some(JNull)
  }

  /** The document holds a truthy `definitions` member. */
  predicate HasDefinitions(d: Option<Json>) {
    d.Some? && d.value.JObj? && Truthy(Get(d.value.fields, "definitions"))
  }

  /** `resolve(input)`: the decoded document with its `definitions` section
      replaced by the expansion of every entry, falsy entries dropped. */
  function Resolve(input: Option<Json>, load: string -> Loaded): (r: Option<Json>)
    ensures !HasDefinitions(Decode(input, load)) ==> r == Decode(input, load)
    ensures r.Some? && r.value.JObj? <==> Decode(input, load).Some? && Decode(input, load).value.JObj?
  {
    var d := Decode(input, load);
    if HasDefinitions(d) then
      var defs := OwnEntries(Get(d.value.fields, "definitions").value);
      Some(JObj(Set(d.value.fields, "definitions", JObj(ExpandDefinitions(defs, defs)))))
    else d
  }

  /** Resolving an object with definitions rebuilds only that section, which
      names exactly the truthy entries, each holding its expansion. */
  lemma ResolvedDefinitions(fs: Fields, load: string -> Loaded, name: string)
    requires Truthy(Get(fs, "definitions"))
    ensures var defs := OwnEntries(Get(fs, "definitions").value);
      var r := Resolve(Some(JObj(fs)), load);
      && r.Some? && r.value.JObj?
      && Get(r.value.fields, "definitions") == Some(JObj(ExpandDefinitions(defs, defs)))
      && (name in Keys(ExpandDefinitions(defs, defs)) <==> Truthy(Get(defs, name)))
      && (Truthy(Get(defs, name)) ==>
            Get(ExpandDefinitions(defs, defs), name) == Some(Expand(defs, Get(defs, name).value, {name})))
      && (name != "definitions" ==> Get(r.value.fields, name) == Get(fs, name))
  {
    var defs := OwnEntries(Get(fs, "definitions").value);
    ExpandedSectionContents(defs, name);
  }

  // ---------------------------------------------------------------------------
  // compare

  /** `compare(other)`: whether the current document and the resolved `other`
      serialize alike. */
  function Compare(current: Option<Json>, other: Option<Json>, load: string -> Loaded): bool {
    StringifyOpt(current) == StringifyOpt(Resolve(other, load))
  }

  /** Comparison is equality with the resolved document, member order included. */
  lemma CompareIsEquality(current: Option<Json>, other: Option<Json>, load: string -> Loaded)
    ensures Compare(current, other, load) <==> current == Resolve(other, load)
  {
    StringifyOptInjective(current, Resolve(other, load));
  }

  /** Two documents with the same members in a different order differ. */
  lemma CompareSeesMemberOrder(load: string -> Loaded)
    ensures var a := JObj([("swagger", JStr("2.0")), ("paths", JObj([]))]);
      var b := JObj([("paths", JObj([])), ("swagger", JStr("2.0"))]);
      && (forall k :: Get(a.fields, k) == Get(b.fields, k))
      && !Compare(Some(a), Some(b), load)
  {
    var a := JObj([("swagger", JStr("2.0")), ("paths", JObj([]))]);
    var b := JObj([("paths", JObj([])), ("swagger", JStr("2.0"))]);
    assert GetType(Some(b)) == "object";
    assert !HasDefinitions(Some(b));
    CompareIsEquality(Some(a), Some(b), load);
    assert a.fields[0] != b.fields[0];
  }

  // ---------------------------------------------------------------------------
  // parse: the fallback chains

  /** `a || b || … || otherwise`: the first truthy candidate, else `otherwise`. */
  function FirstTruthy(cands: seq<Option<Json>>, otherwise: Json): (r: Json)
    ensures forall i :: 0 <= i < |cands| && Truthy(cands[i]) && (forall j :: 0 <= j < i ==> !Truthy(cands[j])) ==>
      Some(r) == cands[i]
    ensures (forall i :: 0 <= i < |cands| ==> !Truthy(cands[i])) ==> r == otherwise
    ensures Truthy(Some(otherwise)) ==> Truthy(Some(r))
  {
    if |cands| == 0 then otherwise
    else if Truthy(cands[0]) then cands[0].value
    else
      var r := FirstTruthy(cands[1..], otherwise);
      assert forall i :: 1 <= i < |cands| ==> cands[i] == cands[1..][i - 1];
      r
  }

  /** The fragments a map of named entries is looked up as, in key order. */
  function Fragments(m: Fields): seq<Json> {
    seq(|m|, i requires 0 <= i < |m| => PropertyFragment(m[i]))
  }

  /** The looked-up parameters: a map becomes a list of its named entries in
      key order, a list keeps its order, and null results are dropped;
      anything else gives no parameters. */
  function Parameters(spec: Option<Json>, fuel: Fuel, pv: Json): (r: Result<seq<Json>, Exception>)
    ensures r.Failure? ==> !r.error.SpecificationError?
    ensures !(pv.JObj? || pv.JArr?) ==> r == Success([])
  {
    match pv
    case JObj(m) => LookupEach(spec, fuel, Fragments(m))
    case JArr(a) => LookupEach(spec, fuel, a)
    case _ => Success([])
  }

  /** The looked-up responses of a map, keyed by name, null results dropped;
      the first exception ends the walk. */
  function LookupResponses(spec: Option<Json>, fuel: Fuel, m: Fields): (r: Result<Fields, Exception>)
    ensures r.Failure? ==> !r.error.SpecificationError?
    decreases |m|
  {
    if |m| == 0 then Success([])
    else
      var last := m[|m| - 1];
      match LookupResponses(spec, fuel, m[..|m| - 1])
      case Failure(e) => Failure(e)
      case Success(acc) =>
        match Lookup(spec, fuel, PropertyFragment(last))
        case Failure(e) => Failure(e)
        case Success(p) => Success(if p.Some? then Set(acc, last.0, p.value) else acc)
  }

  /** The looked-up responses: only a map yields any. */
  function Responses(spec: Option<Json>, fuel: Fuel, rv: Json): (r: Result<Fields, Exception>)
    ensures r.Failure? ==> !r.error.SpecificationError?
    ensures !rv.JObj? ==> r == Success([])
  {
    if rv.JObj? then LookupResponses(spec, fuel, rv.fields) else Success([])
  }

  // ---------------------------------------------------------------------------
  // parse: operations

  /** One operation `ofs` of the path item `pfs` in the document `doc`: its
      parameters and responses are chosen along their fallback chains, then
      replaced by their looked-up forms. */
  function NormalizeOperation(doc: Json, fuel: Fuel, docfs: Fields, pfs: Fields, ofs: Fields)
    : (r: Result<Fields, Exception>)
    ensures r.Failure? ==> !r.error.SpecificationError?
  {
    var pv := FirstTruthy([Get(ofs, "parameters"), Get(pfs, "parameters"), Get(docfs, "parameters")], JArr([]));
    var withParameters := Set(ofs, "parameters", pv);
    match Parameters(Some(doc), fuel, pv)
    case Failure(e) => Failure(e)
    case Success(params) =>
      var listed := Set(withParameters, "parameters", JArr(params));
      var rv := FirstTruthy([Get(listed, "responses"), Get(pfs, "responses"), Get(docfs, "responses")], JObj([]));
      var withResponses := Set(listed, "responses", rv);
      match Responses(Some(doc), fuel, rv)
      case Failure(e) => Failure(e)
      case Success(resp) => Success(Set(withResponses, "responses", JObj(resp)))
  }

  /** The value under a method key. Null has no members to write and throws.
      A primitive silently ignores the writes. An array takes them as
      properties that no serialization shows, so only its exceptions matter. */
  function Operation(doc: Json, fuel: Fuel, docfs: Fields, pfs: Fields, op: Json): (r: Result<Json, Exception>)
    ensures r.Failure? ==> !r.error.SpecificationError?
    ensures op == JNull ==> r == Failure(TypeError)
    ensures r.Success? && !op.JObj? ==> r.value == op
    ensures r.Success? && op.JObj? ==> r.value.JObj?
  {
    match op
    case JNull => Failure(TypeError)
    case JObj(ofs) =>
      (match NormalizeOperation(doc, fuel, docfs, pfs, ofs)
       case Failure(e) => Failure(e)
       case Success(n) => Success(JObj(n)))
    case JArr(_) =>
      (match NormalizeOperation(doc, fuel, docfs, pfs, [])
       case Failure(e) => Failure(e)
       case Success(_) => Success(op))
    case _ => Success(op)
  }

  /** The members of a path item `pfs` from `entries` on: method keys have
      their operations normalized, all other members are kept as they are. */
  function WalkMethods(doc: Json, fuel: Fuel, docfs: Fields, pfs: Fields, entries: Fields)
    : (r: Result<Fields, Exception>)
    ensures r.Failure? ==> !r.error.SpecificationError?
    decreases |entries|
  {
    if |entries| == 0 then Success([])
    else
      var k := entries[0].0;
      var head := if IsMethod(k) then Operation(doc, fuel, docfs, pfs, entries[0].1) else Success(entries[0].1);
      match head
      case Failure(e) => Failure(e)
      case Success(h) =>
        match WalkMethods(doc, fuel, docfs, pfs, entries[1..])
        case Failure(e) => Failure(e)
        case Success(rest) => Success([(k, h)] + rest)
  }

  /** A path item after its `$ref`, if any, has been followed: an object has
      its operations normalized; anything else has no method keys. */
  function Operations(doc: Json, fuel: Fuel, docfs: Fields, ops: Json): (r: Result<Json, Exception>)
    ensures r.Failure? ==> !r.error.SpecificationError?
    ensures r.Success? && !ops.JObj? ==> r.value == ops
  {
    match ops
    case JObj(pfs) =>
      (match WalkMethods(doc, fuel, docfs, pfs, pfs)
       case Failure(e) => Failure(e)
       case Success(walked) => Success(JObj(walked)))
    case _ => Success(ops)
  }

  /** One path item: null throws; a `$ref` that leads nowhere drops the path
      (`Success(None)`); a resolving `$ref` replaces the item by its target. */
  function PathItem(doc: Json, fuel: Fuel, docfs: Fields, item: Json): (r: Result<Option<Json>, Exception>)
    ensures r.Failure? ==> !r.error.SpecificationError?
    ensures item == JNull ==> r == Failure(TypeError)
    ensures r == Success(None) <==>
      item != JNull && Truthy(Prop(item, "$ref")) && !Truthy(GetRef(Some(doc), Prop(item, "$ref")))
  {
    if item == JNull then Failure(TypeError)
    else
      var ref := Prop(item, "$ref");
      var ops :=
        if !Truthy(ref) then Some(item)
        else
          var target := GetRef(Some(doc), ref);
          if Truthy(target) then target else None;
      if ops.None? then Success(None)
      else
        match Operations(doc, fuel, docfs, ops.value)
        case Failure(e) => Failure(e)
        case Success(o) => Success(Some(o))
  }

  /** The members of `paths` from `entries` on, dropped paths left out. */
  function WalkPaths(doc: Json, fuel: Fuel, docfs: Fields, entries: Fields): (r: Result<Fields, Exception>)
    ensures r.Failure? ==> !r.error.SpecificationError?
    decreases |entries|
  {
    if |entries| == 0 then Success([])
    else
      match PathItem(doc, fuel, docfs, entries[0].1)
      case Failure(e) => Failure(e)
      case Success(item) =>
        match WalkPaths(doc, fuel, docfs, entries[1..])
        case Failure(e) => Failure(e)
        case Success(rest) => Success(if item.Some? then [(entries[0].0, item.value)] + rest else rest)
  }

  /** The elements of a list-shaped `paths`: a dropped path leaves a hole,
      which serializes as null. */
  function WalkPathList(doc: Json, fuel: Fuel, docfs: Fields, items: seq<Json>): (r: Result<seq<Json>, Exception>)
    ensures r.Failure? ==> !r.error.SpecificationError?
    ensures r.Success? ==> |r.value| == |items|
    ensures r.Success? ==> forall i {:trigger PathItem(doc, fuel, docfs, items[i])} :: 0 <= i < |items| ==>
      && PathItem(doc, fuel, docfs, items[i]).Success?
      && r.value[i] == Slot(PathItem(doc, fuel, docfs, items[i]).value)
    decreases |items|
  {
    if |items| == 0 then Success([])
    else
      match PathItem(doc, fuel, docfs, items[0])
      case Failure(e) => Failure(e)
      case Success(item) =>
        match WalkPathList(doc, fuel, docfs, items[1..])
        case Failure(e) => Failure(e)
        case Success(rest) =>
          SlotShift(Slot(item), rest, items);
          Success([Slot(item)] + rest)
  }

  /** The element a walked path item leaves in the list: a dropped path is a
      hole, which serializes as null. */
  function Slot(item: Option<Json>): Json {
    if item.Some? then item.value else JNull
  }

  /** Positions after the first of a cons are those of its tail. */
  lemma SlotShift(head: Json, rest: seq<Json>, items: seq<Json>)
    requires |items| > 0 && |rest| == |items| - 1
    ensures forall i :: 1 <= i < |items| ==> items[i] == items[1..][i - 1] && ([head] + rest)[i] == rest[i - 1]
  {
  }

  // ---------------------------------------------------------------------------
  // parse

  const SwaggerError := "Swagger specification error!"
  const PathsError := "Paths is required for the specification!"

  /** The document is present and declares `swagger: "2.0"`. */
  predicate IsSwagger(spec: Option<Json>) {
    Truthy(spec) && Prop(spec.value, "swagger") == Some(JStr("2.0"))
  }

  /** `parse()` on the resolved document `spec`: it is validated, then every
      path item is resolved and its operations normalized. */
  function Parse(spec: Option<Json>, fuel: Fuel): (r: Result<Json, Exception>)
    ensures r == Failure(SpecificationError(SwaggerError)) <==> !IsSwagger(spec)
    ensures r == Failure(SpecificationError(PathsError)) <==>
      IsSwagger(spec) && !Truthy(Prop(spec.value, "paths"))
    ensures r.Success? ==> IsSwagger(spec) && Truthy(Prop(spec.value, "paths")) && r.value.JObj?
  {
    if !IsSwagger(spec) then Failure(SpecificationError(SwaggerError))
    else
      var doc := spec.value;
      var paths := Prop(doc, "paths");
      if !Truthy(paths) then Failure(SpecificationError(PathsError))
      else
        match doc
        case JObj(fs) =>
          (match paths.value
           case JObj(entries) =>
             (match WalkPaths(doc, fuel, fs, entries)
              case Failure(e) => Failure(e)
              case Success(walked) => Success(JObj(Set(fs, "paths", JObj(walked)))))
           case JArr(items) =>
             (match WalkPathList(doc, fuel, fs, items)
              case Failure(e) => Failure(e)
              case Success(walked) => Success(JObj(Set(fs, "paths", JArr(walked)))))
           case _ => Success(doc))
        case _ => assert false; Success(doc)
  }

  /** `Siwa.parse(input)`: resolve, then parse. */
  function ParseDocument(input: Option<Json>, load: string -> Loaded, fuel: Fuel): (r: Result<Json, Exception>)
    ensures r.Success? ==> Resolve(input, load).Some? && Resolve(input, load).value.JObj?
  {
    Parse(Resolve(input, load), fuel)
  }
}
