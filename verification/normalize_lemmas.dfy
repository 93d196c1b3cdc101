/** Properties of the fragment normaliser: the stack limit only matters when
    it is hit, how the list walks keep and drop results, the precedence among
    shape members, how a pointer target is merged, and the worked examples. */
module NormalizeFacts {
  import opened Wrappers
  import opened JsValues
  import opened Utils
  import opened Pointers
  import opened Normalize

  // ---------------------------------------------------------------------------
  // The early exits

  /** Out of frames the lookup overflows; a non-object is null; a marker comes
      back as it is; a pointer that leads nowhere makes the fragment null. */
  lemma LookupEarlyOutcomes(spec: Option<Json>, fuel: Fuel, p: Json)
    ensures fuel.Empty? ==> Lookup(spec, fuel, p) == Failure(StackOverflow)
    ensures fuel.More? && !p.JObj? ==> Lookup(spec, fuel, p) == Success(None)
    ensures fuel.More? && p.JObj? && IsNestedPointer(PointerOf(p.fields)) ==>
      Lookup(spec, fuel, p) == Success(PointerOf(p.fields))
    ensures fuel.More? && p.JObj? && Dangling(spec, p.fields) ==> Lookup(spec, fuel, p) == Success(None)
  {
  }

  // ---------------------------------------------------------------------------
  // The stack limit

  /** A lookup that did not overflow gives the same outcome with one more
      frame: the bound stands only for the engine's limit. */
  lemma {:induction false} LookupFuelMonotone(spec: Option<Json>, fuel: Fuel, p: Json)
    requires Lookup(spec, fuel, p) != Failure(StackOverflow)
    ensures Lookup(spec, More(fuel), p) == Lookup(spec, fuel, p)
    decreases fuel, 0, 0
  {
    if fuel.More? && p.JObj? && !IsNestedPointer(PointerOf(p.fields)) && !Dangling(spec, p.fields) {
      UnifyFuelMonotone(spec, fuel.rest, Prepare(spec, p.fields));
    }
  }

  /** One step of `lookup` on a fragment that is neither a marker nor dangling. */
  lemma LookupStep(spec: Option<Json>, fuel: Fuel, p: Json)
    requires fuel.More? && p.JObj? && !IsNestedPointer(PointerOf(p.fields)) && !Dangling(spec, p.fields)
    ensures Lookup(spec, fuel, p) ==
      match Unify(spec, fuel.rest, Prepare(spec, p.fields))
      case Failure(e) => Failure(e)
      case Success(u) => Success(Some(JObj(FoldType(u))))
  {
  }

  lemma {:induction false} UnifyFuelMonotone(spec: Option<Json>, fuel: Fuel, fs: Fields)
    requires Unify(spec, fuel, fs) != Failure(StackOverflow)
    ensures Unify(spec, More(fuel), fs) == Unify(spec, fuel, fs)
    decreases fuel, 3, 0
  {
    if Truthy(Get(fs, "items")) {
      assert Unify(spec, fuel, fs) == UnifyItems(spec, fuel, fs);
      assert Unify(spec, More(fuel), fs) == UnifyItems(spec, More(fuel), fs);
      UnifyItemsFuelMonotone(spec, fuel, fs);
    } else if Truthy(Get(fs, "allOf")) {
      assert Unify(spec, fuel, fs) == UnifyAllOf(spec, fuel, fs);
      assert Unify(spec, More(fuel), fs) == UnifyAllOf(spec, More(fuel), fs);
      UnifyAllOfFuelMonotone(spec, fuel, fs);
    } else if Truthy(Get(fs, "properties")) {
      assert Unify(spec, fuel, fs) == UnifyProperties(spec, fuel, fs);
      assert Unify(spec, More(fuel), fs) == UnifyProperties(spec, More(fuel), fs);
      UnifyPropertiesFuelMonotone(spec, fuel, fs);
    }
  }

  lemma {:induction false} UnifyItemsFuelMonotone(spec: Option<Json>, fuel: Fuel, fs: Fields)
    requires Truthy(Get(fs, "items")) && UnifyItems(spec, fuel, fs) != Failure(StackOverflow)
    ensures UnifyItems(spec, More(fuel), fs) == UnifyItems(spec, fuel, fs)
    decreases fuel, 2, 0
  {
    LookupFuelMonotone(spec, fuel, Get(fs, "items").value);
  }

  lemma {:induction false} UnifyAllOfFuelMonotone(spec: Option<Json>, fuel: Fuel, fs: Fields)
    requires Truthy(Get(fs, "allOf")) && UnifyAllOf(spec, fuel, fs) != Failure(StackOverflow)
    ensures UnifyAllOf(spec, More(fuel), fs) == UnifyAllOf(spec, fuel, fs)
    decreases fuel, 2, 0
  {
    if Get(fs, "allOf").value.JArr? {
      LookupEachFuelMonotone(spec, fuel, Get(fs, "allOf").value.items);
    }
  }

  lemma {:induction false} UnifyPropertiesFuelMonotone(spec: Option<Json>, fuel: Fuel, fs: Fields)
    requires Truthy(Get(fs, "properties")) && UnifyProperties(spec, fuel, fs) != Failure(StackOverflow)
    ensures UnifyProperties(spec, More(fuel), fs) == UnifyProperties(spec, fuel, fs)
    decreases fuel, 2, 0
  {
    var declared := Get(fs, "requireds");
    var requireds := if Truthy(declared) then declared.value else JArr([]);
    LookupPropertiesFuelMonotone(spec, fuel, OwnEntries(Get(fs, "properties").value), requireds);
  }

  lemma {:induction false} LookupEachFuelMonotone(spec: Option<Json>, fuel: Fuel, xs: seq<Json>)
    requires LookupEach(spec, fuel, xs) != Failure(StackOverflow)
    ensures LookupEach(spec, More(fuel), xs) == LookupEach(spec, fuel, xs)
    decreases fuel, 1, |xs|
  {
    if |xs| > 0 {
      LookupFuelMonotone(spec, fuel, xs[0]);
      if Lookup(spec, fuel, xs[0]).Success? {
        LookupEachFuelMonotone(spec, fuel, xs[1..]);
      }
    }
  }

  lemma {:induction false} PropertyChildFuelMonotone(spec: Option<Json>, fuel: Fuel, member: (string, Json), requireds: Json)
    requires PropertyChild(spec, fuel, member, requireds) != Failure(StackOverflow)
    ensures PropertyChild(spec, More(fuel), member, requireds) == PropertyChild(spec, fuel, member, requireds)
    decreases fuel, 0, 1
  {
    LookupFuelMonotone(spec, fuel, PropertyFragment(member));
  }

  lemma {:induction false} LookupPropertiesFuelMonotone(spec: Option<Json>, fuel: Fuel, entries: Fields, requireds: Json)
    requires LookupProperties(spec, fuel, entries, requireds) != Failure(StackOverflow)
    ensures LookupProperties(spec, More(fuel), entries, requireds) == LookupProperties(spec, fuel, entries, requireds)
    decreases fuel, 1, |entries|
  {
    if |entries| > 0 {
      PropertyChildFuelMonotone(spec, fuel, entries[0], requireds);
      if PropertyChild(spec, fuel, entries[0], requireds).Success? {
        LookupPropertiesFuelMonotone(spec, fuel, entries[1..], requireds);
      }
    }
  }

  /** Any deeper stack gives the same outcome as one the lookup did not
      overflow. */
  lemma {:induction false} LookupDeeper(spec: Option<Json>, deep: Fuel, fuel: Fuel, p: Json)
    requires Deeper(deep, fuel)
    requires Lookup(spec, fuel, p) != Failure(StackOverflow)
    ensures Lookup(spec, deep, p) == Lookup(spec, fuel, p)
    decreases deep
  {
    if deep != fuel {
      LookupDeeper(spec, deep.rest, fuel, p);
      LookupFuelMonotone(spec, deep.rest, p);
    }
  }

  // ---------------------------------------------------------------------------
  // The list walks

  /** A fragment that looks up to null is dropped from an `allOf` or a
      parameter list without affecting the rest. */
  lemma {:induction false} LookupEachDropsNull(spec: Option<Json>, fuel: Fuel, xs: seq<Json>, i: nat)
    requires i < |xs| && Lookup(spec, fuel, xs[i]) == Success(None)
    ensures LookupEach(spec, fuel, xs) == LookupEach(spec, fuel, xs[..i] + xs[i + 1..])
    decreases i
  {
    if i == 0 {
      assert xs[..0] + xs[1..] == xs[1..];
    } else {
      var ys := xs[..i] + xs[i + 1..];
      assert ys[0] == xs[0];
      assert ys[1..] == xs[1..][..i - 1] + xs[1..][i..];
      LookupEachDropsNull(spec, fuel, xs[1..], i - 1);
    }
  }

  /** When every fragment looks up to a node, the walk keeps them all, in order. */
  lemma {:induction false} LookupEachKeepsAll(spec: Option<Json>, fuel: Fuel, xs: seq<Json>)
    requires forall i :: 0 <= i < |xs| ==> Lookup(spec, fuel, xs[i]).Success? && Lookup(spec, fuel, xs[i]).value.Some?
    ensures LookupEach(spec, fuel, xs).Success?
    ensures |LookupEach(spec, fuel, xs).value| == |xs|
    ensures forall i :: 0 <= i < |xs| ==> LookupEach(spec, fuel, xs).value[i] == Lookup(spec, fuel, xs[i]).value.value
    decreases |xs|
  {
    if |xs| > 0 {
      assert forall i :: 0 <= i < |xs[1..]| ==> xs[1..][i] == xs[i + 1];
      LookupEachKeepsAll(spec, fuel, xs[1..]);
      var rest := LookupEach(spec, fuel, xs[1..]).value;
      forall i | 0 <= i < |xs|
        ensures LookupEach(spec, fuel, xs).value[i] == Lookup(spec, fuel, xs[i]).value.value
      {
        if i > 0 { assert xs[1..][i - 1] == xs[i]; }
      }
    }
  }

  /** The first exception met ends the walk and is what the walk throws. */
  lemma LookupEachFirstFailure(spec: Option<Json>, fuel: Fuel, xs: seq<Json>, i: nat)
    requires i < |xs| && Lookup(spec, fuel, xs[i]).Failure?
    requires forall j :: 0 <= j < i ==> Lookup(spec, fuel, xs[j]).Success?
    ensures LookupEach(spec, fuel, xs) == Failure(Lookup(spec, fuel, xs[i]).error)
  {
    LookupEachKeepsGoing(spec, fuel, xs, i);
    LookupEachStep(spec, fuel, xs[i..]);
  }

  /** Fragments that look up without an exception hand the walk on. */
  lemma {:induction false} LookupEachKeepsGoing(spec: Option<Json>, fuel: Fuel, xs: seq<Json>, i: nat)
    requires i <= |xs|
    requires forall j :: 0 <= j < i ==> Lookup(spec, fuel, xs[j]).Success?
    ensures LookupEach(spec, fuel, xs[i..]).Failure? ==> LookupEach(spec, fuel, xs) == LookupEach(spec, fuel, xs[i..])
    decreases i
  {
    if i > 0 {
      var ys := xs[1..];
      assert forall j :: 0 <= j < |ys| ==> ys[j] == xs[j + 1];
      assert ys[i - 1..] == xs[i..];
      LookupEachKeepsGoing(spec, fuel, ys, i - 1);
      LookupEachStep(spec, fuel, xs);
    }
  }

  /** One step of the walk over a non-empty list. */
  lemma LookupEachStep(spec: Option<Json>, fuel: Fuel, xs: seq<Json>)
    requires |xs| > 0
    ensures Lookup(spec, fuel, xs[0]).Failure? ==>
      LookupEach(spec, fuel, xs) == Failure(Lookup(spec, fuel, xs[0]).error)
    ensures Lookup(spec, fuel, xs[0]).Success? && LookupEach(spec, fuel, xs[1..]).Failure? ==>
      LookupEach(spec, fuel, xs) == LookupEach(spec, fuel, xs[1..])
  {
  }

  /** A member of `properties` that looks up to null makes the whole node
      throw: its flag is written on null. */
  lemma NullPropertyThrows(spec: Option<Json>, fuel: Fuel, entries: Fields, requireds: Json, i: nat)
    requires i < |entries| && Lookup(spec, fuel, PropertyFragment(entries[i])) == Success(None)
    ensures LookupProperties(spec, fuel, entries, requireds).Failure?
  {
    ChildFailureThrows(spec, fuel, entries, requireds, i);
  }

  /** A member whose child throws makes the whole walk throw. */
  lemma {:induction false} ChildFailureThrows(spec: Option<Json>, fuel: Fuel, entries: Fields, requireds: Json, i: nat)
    requires i < |entries| && PropertyChild(spec, fuel, entries[i], requireds).Failure?
    ensures LookupProperties(spec, fuel, entries, requireds).Failure?
    decreases i, 1
  {
    if i == 0 {
      LookupPropertiesStep(spec, fuel, entries, requireds);
    } else {
      LaterChildFailureThrows(spec, fuel, entries, requireds, i);
    }
  }

  /** The same for a member after the first, through the rest of the walk. */
  lemma {:induction false} LaterChildFailureThrows(spec: Option<Json>, fuel: Fuel, entries: Fields, requireds: Json, i: nat)
    requires 0 < i < |entries| && PropertyChild(spec, fuel, entries[i], requireds).Failure?
    ensures LookupProperties(spec, fuel, entries, requireds).Failure?
    decreases i, 0
  {
    var rest := entries[1..];
    assert rest[i - 1] == entries[i];
    ChildFailureThrows(spec, fuel, rest, requireds, i - 1);
    LookupPropertiesStep(spec, fuel, entries, requireds);
  }

  /** One step of the walk over the members of `properties`. */
  lemma LookupPropertiesStep(spec: Option<Json>, fuel: Fuel, entries: Fields, requireds: Json)
    requires |entries| > 0
    ensures PropertyChild(spec, fuel, entries[0], requireds).Failure? ==>
      LookupProperties(spec, fuel, entries, requireds).Failure?
    ensures LookupProperties(spec, fuel, entries[1..], requireds).Failure? ==>
      LookupProperties(spec, fuel, entries, requireds).Failure?
  {
  }

  // ---------------------------------------------------------------------------
  // Precedence among the shape members

  /** `items` wins: the node becomes an `array` whose only child is the
      looked-up item, or which has none when the item is null. */
  lemma ItemsTakePrecedence(spec: Option<Json>, fuel: Fuel, fs: Fields)
    requires Truthy(Get(fs, "items")) && Unify(spec, fuel, fs).Success?
    ensures Lookup(spec, fuel, Get(fs, "items").value).Success?
    ensures var u := Unify(spec, fuel, fs).value;
      var item := Lookup(spec, fuel, Get(fs, "items").value).value;
      && Get(u, "type") == Some(JStr("array")) && Get(u, "items") == None
      && Get(u, "children") == Some(JArr(if item.Some? then [item.value] else []))
  {
    assert Unify(spec, fuel, fs) == UnifyItems(spec, fuel, fs);
  }

  /** Under `items`, the lower-precedence `allOf`, `properties` and
      `requireds` are left as they were. */
  lemma ItemsLeaveOtherShapes(spec: Option<Json>, fuel: Fuel, fs: Fields)
    requires Truthy(Get(fs, "items")) && Unify(spec, fuel, fs).Success?
    ensures var u := Unify(spec, fuel, fs).value;
      && Get(u, "allOf") == Get(fs, "allOf") && Get(u, "properties") == Get(fs, "properties")
      && Get(u, "requireds") == Get(fs, "requireds")
  {
    var r := UnifyItems(spec, fuel, fs);
    assert Unify(spec, fuel, fs) == r;
    var item := Lookup(spec, fuel, Get(fs, "items").value).value;
    var children := if item.Some? then [item.value] else [];
    assert r == Success(Reshape(fs, "array", children, "items"));
    ReshapeFrame(fs, "array", children, "items");
    assert "allOf"[0] == 'a' && "properties"[0] == 'p' && "requireds"[0] == 'r';
  }

  /** Without `items`, `allOf` wins over `properties`: the node becomes an
      `array` whose children are the non-null lookups of the list, in order. */
  lemma AllOfBeforeProperties(spec: Option<Json>, fuel: Fuel, fs: Fields)
    requires !Truthy(Get(fs, "items")) && Truthy(Get(fs, "allOf")) && Unify(spec, fuel, fs).Success?
    ensures Get(fs, "allOf").value.JArr?
    ensures LookupEach(spec, fuel, Get(fs, "allOf").value.items).Success?
    ensures var u := Unify(spec, fuel, fs).value;
      && Get(u, "type") == Some(JStr("array")) && Get(u, "allOf") == None
      && Get(u, "children") == Some(JArr(LookupEach(spec, fuel, Get(fs, "allOf").value.items).value))
  {
    assert Unify(spec, fuel, fs) == UnifyAllOf(spec, fuel, fs);
  }

  /** Under `allOf`, the lower-precedence `properties` and `requireds` are
      left as they were. */
  lemma AllOfLeavesProperties(spec: Option<Json>, fuel: Fuel, fs: Fields)
    requires !Truthy(Get(fs, "items")) && Truthy(Get(fs, "allOf")) && Unify(spec, fuel, fs).Success?
    ensures var u := Unify(spec, fuel, fs).value;
      Get(u, "properties") == Get(fs, "properties") && Get(u, "requireds") == Get(fs, "requireds")
  {
    var r := UnifyAllOf(spec, fuel, fs);
    assert Unify(spec, fuel, fs) == r;
    var children := LookupEach(spec, fuel, Get(fs, "allOf").value.items).value;
    assert r == Success(Reshape(fs, "array", children, "allOf"));
    ReshapeFrame(fs, "array", children, "allOf");
    assert "properties"[0] == 'p' && "requireds"[0] == 'r';
  }

  /** Only `properties` present: an `object` node with one child per member,
      in member order, each the stamped lookup of `{name, ...entry}` flagged
      from `requireds`. */
  lemma PropertiesLast(spec: Option<Json>, fuel: Fuel, fs: Fields)
    requires !Truthy(Get(fs, "items")) && !Truthy(Get(fs, "allOf")) && Truthy(Get(fs, "properties"))
    requires Unify(spec, fuel, fs).Success?
    ensures LookupProperties(spec, fuel, OwnEntries(Get(fs, "properties").value), RequiredsOf(fs)).Success?
    ensures var u := Unify(spec, fuel, fs).value;
      var entries := OwnEntries(Get(fs, "properties").value);
      var children := LookupProperties(spec, fuel, entries, RequiredsOf(fs)).value;
      && Get(u, "type") == Some(JStr("object")) && Get(u, "properties") == None && Get(u, "requireds") == None
      && Get(u, "children") == Some(JArr(children))
      && |children| == |entries|
      && forall i :: 0 <= i < |entries| ==>
           PropertyChild(spec, fuel, entries[i], RequiredsOf(fs)) == Success(children[i])
           && Flagged(children[i], RequiredsOf(fs), entries[i].0)
  {
    assert Unify(spec, fuel, fs) == UnifyProperties(spec, fuel, fs);
  }

  // ---------------------------------------------------------------------------
  // Merging a pointer target or an inline schema

  /** A followed pointer: the target's members (with a `required` list renamed)
      overwrite the fragment's, and the fragment's own `$ref` is gone. */
  lemma PrepareMergesTarget(spec: Option<Json>, fs: Fields)
    requires Truthy(PointerOf(fs)) && Truthy(GetRef(spec, PointerOf(fs)))
    requires DistinctKeys(OwnEntries(RenamedSchema(GetRef(spec, PointerOf(fs)).value)))
    ensures var target := OwnEntries(RenamedSchema(GetRef(spec, PointerOf(fs)).value));
      forall k :: k != "schema" && k != "required" && k != "requireds" ==>
        Get(Prepare(spec, fs), k) ==
          if k in Keys(target) then Get(target, k) else if k == "$ref" then None else Get(fs, k)
  {
    var t := GetRef(spec, PointerOf(fs)).value;
    var resolved := Set(Delete(fs, "$ref"), "schema", t);
    assert Get(resolved, "schema") == Some(t);
    assert SchemaEntries(resolved) == OwnEntries(RenamedSchema(t));
    HoistContents(resolved);
  }

  /** An inline `schema` without a pointer: its members (with a `required`
      list renamed) overwrite the fragment's. */
  lemma PrepareHoistsSchema(spec: Option<Json>, fs: Fields)
    requires !Truthy(PointerOf(fs)) && Truthy(Get(fs, "schema"))
    requires DistinctKeys(SchemaEntries(fs))
    ensures forall k :: k != "schema" && k != "required" && k != "requireds" ==>
      Get(Prepare(spec, fs), k) == if k in Keys(SchemaEntries(fs)) then Get(SchemaEntries(fs), k) else Get(fs, k)
  {
    HoistContents(fs);
  }

  // ---------------------------------------------------------------------------
  // Worked examples

  /** A fragment with no pointer, no schema, no `required` list and no shape
      member is only type-folded. */
  lemma PlainFragment(spec: Option<Json>, fuel: Fuel, fs: Fields)
    requires fuel.More?
    requires !Truthy(Get(fs, "schema")) && !Truthy(Get(fs, "$ref")) && !IsList(Get(fs, "required"))
    requires !Truthy(Get(fs, "items")) && !Truthy(Get(fs, "allOf")) && !Truthy(Get(fs, "properties"))
    ensures Lookup(spec, fuel, JObj(fs)) == Success(Some(JObj(FoldType(fs))))
  {
    assert Prepare(spec, fs) == fs;
    LookupStep(spec, fuel, JObj(fs));
  }

  /** `{type: "integer"}` becomes `{type: "number", format: "int64"}`. */
  lemma IntegerBecomesNumber(fuel: Fuel)
    requires fuel.More?
    ensures Lookup(None, fuel, JObj([("type", JStr("integer"))]))
         == Success(Some(JObj([("type", JStr("number")), ("format", JStr("int64"))])))
  {
    var fs := [("type", JStr("integer"))];
    PlainFragment(None, fuel, fs);
    var typed := Set(fs, "type", JStr("number"));
    assert typed == [("type", JStr("number"))] by {
      assert |typed| == 1 && typed[0].0 == "type";
      GetAt(typed, "type", 0);
    }
    assert "format" !in Keys(typed);
    assert FoldType(fs) == typed + [("format", JStr("int64"))];
    assert typed + [("format", JStr("int64"))] == [("type", JStr("number")), ("format", JStr("int64"))];
  }

  /** An explicit `format` survives the folding of `integer`. */
  lemma IntegerKeepsFormat(fuel: Fuel)
    requires fuel.More?
    ensures Lookup(None, fuel, JObj([("type", JStr("integer")), ("format", JStr("int32"))]))
         == Success(Some(JObj([("type", JStr("number")), ("format", JStr("int32"))])))
  {
    var fs := [("type", JStr("integer")), ("format", JStr("int32"))];
    PlainFragment(None, fuel, fs);
    FoldIntegerWithFormat();
  }

  lemma FoldIntegerWithFormat()
    ensures FoldType([("type", JStr("integer")), ("format", JStr("int32"))])
         == [("type", JStr("number")), ("format", JStr("int32"))]
  {
    var fs := [("type", JStr("integer")), ("format", JStr("int32"))];
    assert Get(fs, "format") == Some(JStr("int32"));
    SetAt(fs, 0, JStr("number"));
    var typed := fs[0 := ("type", JStr("number"))];
    SetAt(typed, 1, JStr("int32"));
    assert typed[1 := ("format", JStr("int32"))] == typed;
  }

  // ---------------------------------------------------------------------------
  // Required stamping, on the example of a two-member `properties`

  /** The member `name: {type: "string"}` looks up to `{name, type: "string"}`. */
  lemma StringMemberLooksUp(fuel: Fuel, name: string)
    requires fuel.More?
    ensures Lookup(None, fuel, PropertyFragment((name, JObj([("type", JStr("string"))])))) ==
      Success(Some(JObj([("name", JStr(name)), ("type", JStr("string"))])))
  {
    var fs := [("name", JStr(name)), ("type", JStr("string"))];
    assert Set([("name", JStr(name))], "type", JStr("string")) == fs;
    assert NamedFragment(name, JObj([("type", JStr("string"))])) == fs;
    PlainFragment(None, fuel, fs);
  }

  /** Deleting a name that occurs once removes just that member. */
  lemma {:induction false} DeleteAt(fs: Fields, i: nat)
    requires i < |fs|
    requires forall j :: 0 <= j < |fs| && j != i ==> fs[j].0 != fs[i].0
    ensures Delete(fs, fs[i].0) == fs[..i] + fs[i + 1..]
    decreases i
  {
    var k := fs[i].0;
    if i == 0 {
      assert k !in Keys(fs[1..]);
      DeleteShape(fs[1..], k);
    } else {
      DeleteAt(fs[1..], i - 1);
      assert fs[1..][..i - 1] + fs[1..][i..] == fs[1..i] + fs[i + 1..];
      assert [fs[0]] + fs[1..i] == fs[..i];
    }
  }

  /** Setting a new name `k'` then deleting the last name `k` of three
      members renames that member in place. */
  lemma RenameLast(x: (string, Json), y: (string, Json), k: string, k': string, v: Json)
    requires x.0 != k && y.0 != k && x.0 != k' && y.0 != k' && k != k'
    ensures Delete(Set([x, y, (k, v)], k', v), k) == [x, y, (k', v)]
  {
    var fs := [x, y, (k, v)];
    var appended := [x, y, (k, v), (k', v)];
    assert fs + [(k', v)] == appended;
    assert appended[..2] + appended[3..] == [x, y, (k', v)];
    assert k' !in Keys(fs);
    SetShape(fs, k', v);
    DeleteAt(appended, 2);
  }

  /** The example's `required` list is renamed `requireds` and moves last. */
  lemma ExampleRenamed(props: Json, req: Json)
    requires req.JArr?
    ensures RenameRequired([("type", JStr("object")), ("properties", props), ("required", req)]) ==
      [("type", JStr("object")), ("properties", props), ("requireds", req)]
  {
    var fs := [("type", JStr("object")), ("properties", props), ("required", req)];
    assert |"requireds"| == 9 && |"required"| == 8 && "type"[0] == 't' && "properties"[0] == 'p';
    assert Get(fs, "required") == Some(req) by { GetAt(fs, "required", 2); }
    assert RenameRequired(fs) == Delete(Set(fs, "requireds", req), "required");
    RenameLast(("type", JStr("object")), ("properties", props), "required", "requireds", req);
  }

  /** The example names no pointer. */
  lemma ExampleHasNoPointer(props: Json, req: Json)
    ensures PointerOf([("type", JStr("object")), ("properties", props), ("required", req)]) == None
  {
    var fs := [("type", JStr("object")), ("properties", props), ("required", req)];
    assert "schema"[0] == 's' && "$ref"[0] == '$' && "type"[0] == 't' && "properties"[0] == 'p' && "required"[0] == 'r';
    assert Get(fs, "schema") == None && Get(fs, "$ref") == None;
  }

  /** Preparing the example renames its `required` list and changes nothing
      else. */
  lemma ExamplePrepared(props: Json, req: Json)
    requires req.JArr?
    ensures Prepare(None, [("type", JStr("object")), ("properties", props), ("required", req)]) ==
      [("type", JStr("object")), ("properties", props), ("requireds", req)]
  {
    var fs := [("type", JStr("object")), ("properties", props), ("required", req)];
    assert "schema"[0] == 's' && "$ref"[0] == '$' && "type"[0] == 't' && "properties"[0] == 'p' && "required"[0] == 'r';
    assert Get(fs, "schema") == None && Get(fs, "$ref") == None;
    ExampleRenamed(props, req);
  }

  /** Stamping `{name: a, type: "string"}` appends the flag. */
  lemma StringItemStamped(a: string, flag: bool)
    ensures Stamp(JObj([("name", JStr(a)), ("type", JStr("string"))]), flag) ==
      JObj([("name", JStr(a)), ("type", JStr("string")), ("required", JBool(flag))])
  {
    var item := [("name", JStr(a)), ("type", JStr("string"))];
    assert "required"[0] == 'r' && "name"[0] == 'n' && "type"[0] == 't';
    assert "required" !in Keys(item);
    SetShape(item, "required", JBool(flag));
    assert item + [("required", JBool(flag))] == [("name", JStr(a)), ("type", JStr("string")), ("required", JBool(flag))];
  }

  /** A member `a: {type: "string"}` against `required: [r]` becomes
      `{name: a, type: "string", required: a == r}`. */
  lemma StringMemberStamped(fuel: Fuel, a: string, r: string)
    requires fuel.More?
    ensures PropertyChild(None, fuel, (a, JObj([("type", JStr("string"))])), JArr([JStr(r)])) ==
      Success(JObj([("name", JStr(a)), ("type", JStr("string")), ("required", JBool(a == r))]))
  {
    var item := JObj([("name", JStr(a)), ("type", JStr("string"))]);
    var member := (a, JObj([("type", JStr("string"))]));
    StringMemberLooksUp(fuel, a);
    assert RequiredOf(JArr([JStr(r)]), a) == Some(a == r);
    StringItemStamped(a, a == r);
    assert PropertyChild(None, fuel, member, JArr([JStr(r)])) == Success(Stamp(item, a == r));
  }

  /** A successful step of the walk over `properties` puts the member's child
      before the rest. */
  lemma LookupPropertiesCons(spec: Option<Json>, fuel: Fuel, entries: Fields, requireds: Json, child: Json, rest: seq<Json>)
    requires |entries| > 0
    requires PropertyChild(spec, fuel, entries[0], requireds) == Success(child)
    requires LookupProperties(spec, fuel, entries[1..], requireds) == Success(rest)
    ensures LookupProperties(spec, fuel, entries, requireds) == Success([child] + rest)
  {
  }

  /** A non-empty list is its head before its tail. */
  lemma HeadTail<T>(s: seq<T>)
    requires |s| > 0
    ensures [s[0]] + s[1..] == s
  {
  }

  /** What holds member by member of a walk holds of its tail. */
  lemma ChildrenOfTail(spec: Option<Json>, fuel: Fuel, entries: Fields, requireds: Json, children: seq<Json>)
    requires |children| == |entries| > 0
    requires forall i {:trigger PropertyChild(spec, fuel, entries[i], requireds)} :: 0 <= i < |entries| ==>
      PropertyChild(spec, fuel, entries[i], requireds) == Success(children[i])
    ensures forall i {:trigger PropertyChild(spec, fuel, entries[1..][i], requireds)} :: 0 <= i < |entries| - 1 ==>
      PropertyChild(spec, fuel, entries[1..][i], requireds) == Success(children[1..][i])
  {
    forall i | 0 <= i < |entries| - 1
      ensures PropertyChild(spec, fuel, entries[1..][i], requireds) == Success(children[1..][i])
    {
      assert entries[1..][i] == entries[i + 1] && children[1..][i] == children[i + 1];
      assert PropertyChild(spec, fuel, entries[i + 1], requireds) == Success(children[i + 1]);
    }
  }

  /** The converse of the per-member clause of `LookupProperties`: when every
      member's child succeeds, the walk returns exactly those children, in
      order. */
  lemma {:induction false} AllChildrenSucceed(spec: Option<Json>, fuel: Fuel, entries: Fields, requireds: Json, children: seq<Json>)
    requires |children| == |entries|
    requires forall i {:trigger PropertyChild(spec, fuel, entries[i], requireds)} :: 0 <= i < |entries| ==>
      PropertyChild(spec, fuel, entries[i], requireds) == Success(children[i])
    ensures LookupProperties(spec, fuel, entries, requireds) == Success(children)
    decreases |entries|
  {
    if |entries| > 0 {
      HeadTail(children);
      ChildrenOfTail(spec, fuel, entries, requireds, children);
      AllChildrenSucceed(spec, fuel, entries[1..], requireds, children[1..]);
      LookupPropertiesCons(spec, fuel, entries, requireds, children[0], children[1..]);
    }
  }

  /** A two-element list is the concatenation of its singletons. */
  lemma PairAppend<T>(x: T, y: T)
    ensures [x] + [y] == [x, y]
  {
  }

  /** A walk over one member whose child succeeds. */
  lemma OneChild(spec: Option<Json>, fuel: Fuel, m: (string, Json), requireds: Json, c: Json)
    requires PropertyChild(spec, fuel, m, requireds) == Success(c)
    ensures LookupProperties(spec, fuel, [m], requireds) == Success([c])
  {
    assert [m][1..] == [];
    LookupPropertiesCons(spec, fuel, [m], requireds, c, []);
    assert [c] + [] == [c];
  }

  /** A member whose child succeeds, put before a walk that succeeds. */
  lemma ConsChild(spec: Option<Json>, fuel: Fuel, m: (string, Json), rest: Fields, requireds: Json, c: Json, cs: seq<Json>)
    requires PropertyChild(spec, fuel, m, requireds) == Success(c)
    requires LookupProperties(spec, fuel, rest, requireds) == Success(cs)
    ensures LookupProperties(spec, fuel, [m] + rest, requireds) == Success([c] + cs)
  {
    assert ([m] + rest)[0] == m && ([m] + rest)[1..] == rest;
    LookupPropertiesCons(spec, fuel, [m] + rest, requireds, c, cs);
  }

  /** A walk over two members whose children both succeed. */
  lemma TwoChildren(spec: Option<Json>, fuel: Fuel, m0: (string, Json), m1: (string, Json), requireds: Json, c0: Json, c1: Json)
    requires PropertyChild(spec, fuel, m0, requireds) == Success(c0)
    requires PropertyChild(spec, fuel, m1, requireds) == Success(c1)
    ensures LookupProperties(spec, fuel, [m0, m1], requireds) == Success([c0, c1])
  {
    PairAppend(m0, m1);
    PairAppend(c0, c1);
    OneChild(spec, fuel, m1, requireds, c1);
    ConsChild(spec, fuel, m0, [m1], requireds, c0, [c1]);
  }

  /** Two members `a` and `b` with `required: [a]` become their stamped
      children. */
  lemma TwoStampedChildren(fuel: Fuel, a: string, b: string)
    requires fuel.More? && a != b
    ensures
      var str := JObj([("type", JStr("string"))]);
      LookupProperties(None, fuel, [(a, str), (b, str)], JArr([JStr(a)])) ==
        Success([JObj([("name", JStr(a)), ("type", JStr("string")), ("required", JBool(true))]),
                 JObj([("name", JStr(b)), ("type", JStr("string")), ("required", JBool(false))])])
  {
    var str := JObj([("type", JStr("string"))]);
    StringMemberStamped(fuel, a, a);
    StringMemberStamped(fuel, b, a);
    TwoChildren(None, fuel, (a, str), (b, str), JArr([JStr(a)]),
      JObj([("name", JStr(a)), ("type", JStr("string")), ("required", JBool(true))]),
      JObj([("name", JStr(b)), ("type", JStr("string")), ("required", JBool(false))]));
  }

  /** Reshaping the example writes `type` in place and appends `children`. */
  lemma ExampleTyped(props: Json, req: Json, children: seq<Json>)
    ensures var fs := [("type", JStr("object")), ("properties", props), ("requireds", req)];
      Set(Set(Set(fs, "type", JStr("object")), "children", JArr([])), "children", JArr(children)) ==
        fs + [("children", JArr(children))]
  {
    var fs := [("type", JStr("object")), ("properties", props), ("requireds", req)];
    assert "type"[0] == 't' && "properties"[0] == 'p' && "requireds"[0] == 'r' && "children"[0] == 'c';
    SetAt(fs, 0, JStr("object"));
    assert fs[0 := ("type", JStr("object"))] == fs;
    assert "children" !in Keys(fs);
    SetShape(fs, "children", JArr([]));
    SetAt(fs + [("children", JArr([]))], 3, JArr(children));
    assert (fs + [("children", JArr([]))])[3 := ("children", JArr(children))] == fs + [("children", JArr(children))];
  }

  /** Reshaping the example then drops `requireds` and `properties`. */
  lemma ExampleDropped(props: Json, req: Json, children: seq<Json>)
    ensures var full := [("type", JStr("object")), ("properties", props), ("requireds", req), ("children", JArr(children))];
      Delete(Delete(full, "requireds"), "properties") == [("type", JStr("object")), ("children", JArr(children))]
  {
    var full := [("type", JStr("object")), ("properties", props), ("requireds", req), ("children", JArr(children))];
    assert "type"[0] == 't' && "properties"[0] == 'p' && "requireds"[0] == 'r' && "children"[0] == 'c';
    DeleteAt(full, 2);
    var mid := [full[0], full[1], full[3]];
    assert full[..2] + full[3..] == mid;
    DeleteAt(mid, 1);
    assert mid[..1] + mid[2..] == [("type", JStr("object")), ("children", JArr(children))];
  }

  /** The `object` node of the example holds `type` and the children only. */
  lemma ExampleNode(props: Json, req: Json, children: seq<Json>)
    ensures PropertiesNode([("type", JStr("object")), ("properties", props), ("requireds", req)], children) ==
      [("type", JStr("object")), ("children", JArr(children))]
  {
    ExampleTyped(props, req, children);
    ExampleDropped(props, req, children);
    var fs := [("type", JStr("object")), ("properties", props), ("requireds", req)];
    assert fs + [("children", JArr(children))] ==
      [("type", JStr("object")), ("properties", props), ("requireds", req), ("children", JArr(children))];
  }

  /** The prepared example has `properties` and `requireds` but no `items`
      or `allOf`. */
  lemma ExampleShape(props: Json, req: Json)
    requires props.JObj? && req.JArr?
    ensures var flat := [("type", JStr("object")), ("properties", props), ("requireds", req)];
      && Get(flat, "items") == None && Get(flat, "allOf") == None
      && Get(flat, "properties") == Some(props) && RequiredsOf(flat) == req
  {
    var flat := [("type", JStr("object")), ("properties", props), ("requireds", req)];
    assert "type"[0] == 't' && "properties"[0] == 'p' && "requireds"[0] == 'r' && "items"[0] == 'i' && "allOf"[0] == 'a';
    GetAt(flat, "properties", 1);
    GetAt(flat, "requireds", 2);
  }

  /** The prepared example unifies through `properties` alone. */
  lemma ExampleUnified(fuel: Fuel, props: Json, req: Json, children: seq<Json>)
    requires props.JObj? && req.JArr?
    requires LookupProperties(None, fuel, props.fields, req) == Success(children)
    ensures Unify(None, fuel, [("type", JStr("object")), ("properties", props), ("requireds", req)]) ==
      Success([("type", JStr("object")), ("children", JArr(children))])
  {
    var flat := [("type", JStr("object")), ("properties", props), ("requireds", req)];
    ExampleShape(props, req);
    assert UnifyProperties(None, fuel, flat) == Success(PropertiesNode(flat, children));
    ExampleNode(props, req, children);
  }

  /** Folding leaves an `object` node that already has its children. */
  lemma ExampleFolded(children: seq<Json>)
    ensures var node := [("type", JStr("object")), ("children", JArr(children))];
      FoldType(node) == node
  {
    var node := [("type", JStr("object")), ("children", JArr(children))];
    assert "children"[0] == 'c' && "type"[0] == 't';
    GetAt(node, "children", 1);
    SetAt(node, 1, JArr(children));
    assert node[1 := ("children", JArr(children))] == node;
  }

  /** The example looks up to the folded result of unifying its prepared
      form. */
  lemma ExampleLooksUp(fuel: Fuel, props: Json, req: Json, children: seq<Json>)
    requires fuel.More? && props.JObj? && req.JArr?
    requires LookupProperties(None, fuel.rest, props.fields, req) == Success(children)
    ensures Lookup(None, fuel, JObj([("type", JStr("object")), ("properties", props), ("required", req)])) ==
      Success(Some(JObj([("type", JStr("object")), ("children", JArr(children))])))
  {
    var p := JObj([("type", JStr("object")), ("properties", props), ("required", req)]);
    ExampleHasNoPointer(props, req);
    ExamplePrepared(props, req);
    ExampleUnified(fuel.rest, props, req, children);
    ExampleFolded(children);
    LookupStep(None, fuel, p);
  }

  /** `{type: "object", properties: {id: {type: "string"}, name: {type: "string"}},
      required: ["id"]}` becomes an `object` node whose children are `id`,
      stamped `required: true`, and `name`, stamped `required: false`. */
  lemma RequiredStamping(fuel: Fuel)
    requires fuel.More? && fuel.rest.More?
    ensures
      var str := JObj([("type", JStr("string"))]);
      var p := JObj([("type", JStr("object")),
                     ("properties", JObj([("id", str), ("name", str)])),
                     ("required", JArr([JStr("id")]))]);
      Lookup(None, fuel, p) ==
        Success(Some(JObj([("type", JStr("object")),
                           ("children", JArr([
                             JObj([("name", JStr("id")), ("type", JStr("string")), ("required", JBool(true))]),
                             JObj([("name", JStr("name")), ("type", JStr("string")), ("required", JBool(false))])]))])))
  {
    var str := JObj([("type", JStr("string"))]);
    var props := JObj([("id", str), ("name", str)]);
    var req := JArr([JStr("id")]);
    var idChild := JObj([("name", JStr("id")), ("type", JStr("string")), ("required", JBool(true))]);
    var nameChild := JObj([("name", JStr("name")), ("type", JStr("string")), ("required", JBool(false))]);
    assert "id" != "name" by { assert |"id"| == 2 && |"name"| == 4; }
    TwoStampedChildren(fuel.rest, "id", "name");
    ExampleLooksUp(fuel, props, req, [idChild, nameChild]);
  }
}
