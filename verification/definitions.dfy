/** The cycle-safe definition expander `defer`. Every `$ref` naming an entry
    of the `definitions` section is replaced inside a definition by that
    entry's own expansion; a name already being expanded on the current path
    becomes the marker `{"path": "#/definitions/<name>", "nested": true}`
    instead. The source performs this by rewriting the serialized text with a
    regular expression; here it is the corresponding walk over the tree. */
module Definitions {
  import opened Wrappers
  import opened JsValues

  const DefinitionsPrefix: string := "#/definitions/"

  /** A name as the rewrite captures it: non-empty, and made of characters
      that JSON text writes unescaped and that are not a quote. */
  predicate PlainName(x: string) {
    && |x| > 0
    && forall i :: 0 <= i < |x| ==> x[i] != '"' && x[i] != '\\' && x[i] >= ' '
  }

  /** The definition a `$ref` string names, if it has the form
      `#/definitions/<name>` the rewrite recognises. */
  function RefName(s: string): (r: Option<string>)
    ensures r.Some? ==> s == DefinitionsPrefix + r.value && PlainName(r.value)
  {
    var n := |DefinitionsPrefix|;
    if |s| > n && s[..n] == DefinitionsPrefix && PlainName(s[n..]) then
      assert s == s[..n] + s[n..];
      Some(s[n..])
    else None
  }

  /** The pointer string for a definition name reads back as that name. */
  lemma RefNameOfPointer(name: string)
    requires PlainName(name)
    ensures RefName(DefinitionsPrefix + name) == Some(name)
  {
    var s := DefinitionsPrefix + name;
    assert s[..|DefinitionsPrefix|] == DefinitionsPrefix;
    assert s[|DefinitionsPrefix|..] == name;
  }

  /** The terminal marker put where an expansion would revisit `name`. */
  function Marker(name: string): Json {
    JObj([("path", JStr(DefinitionsPrefix + name)), ("nested", JBool(true))])
  }

  /** Whether the member `(k, x)` is a `$ref` to a definition. */
  predicate IsDefinitionRef(k: string, x: Json) {
    k == "$ref" && x.JStr? && RefName(x.s).Some?
  }

  /** Adding a name that is defined and not yet visited leaves one fewer
      unvisited definition. */
  lemma VisitShrinks(names: set<string>, visited: set<string>, key: string)
    requires key in names && key !in visited
    ensures |names - (visited + {key})| < |names - visited|
  {
    assert names - (visited + {key}) == (names - visited) - {key};
  }

  /** `defer(definitions, key, visited)`: the expansion of the definition named
      `key` along a path that has already entered the names in `visited`;
      `None` (null) when the definition is missing or falsy. */
  function Defer(defs: Fields, key: string, visited: set<string>): (r: Option<Json>)
    ensures r.None? <==> !Truthy(Get(defs, key))
    decreases |Keys(defs) - visited|, if key in visited then 2 else 0, 0
  {
    var def := Get(defs, key);
    if !Truthy(def) then None
    else
      var stack := visited + {key};
      if key in visited then
        assert stack == visited;
        Some(Expand(defs, def.value, stack))
      else
        VisitShrinks(Keys(defs), visited, key);
        Some(Expand(defs, def.value, stack))
  }

  /** The rewrite applied to every `$ref` member anywhere inside `v`, with
      `stack` the names on the current expansion path. */
  function Expand(defs: Fields, v: Json, stack: set<string>): Json
    decreases |Keys(defs) - stack|, 1, v
  {
    match v
    case JArr(a) => JArr(ExpandList(defs, a, stack))
    case JObj(fs) => JObj(ExpandFields(defs, fs, stack))
    case _ => v
  }

  /** `Expand` on each element of an array. */
  function ExpandList(defs: Fields, a: seq<Json>, stack: set<string>): (r: seq<Json>)
    ensures |r| == |a|
    decreases |Keys(defs) - stack|, 1, a
  {
    if |a| == 0 then []
    else [Expand(defs, a[0], stack)] + ExpandList(defs, a[1..], stack)
  }

  /** `Expand` on the members of an object. A definition reference to a name on
      the path becomes the marker; one to any other name becomes that name's
      expansion, or disappears when the expansion is null. The expansion put in
      place is not itself walked again. */
  function ExpandFields(defs: Fields, fs: Fields, stack: set<string>): (r: Fields)
    ensures |r| <= |fs|
    decreases |Keys(defs) - stack|, 1, fs
  {
    if |fs| == 0 then []
    else
      var rest := ExpandFields(defs, fs[1..], stack);
      var (k, x) := fs[0];
      assert x < fs[0];
      if IsDefinitionRef(k, x) then
        var name := RefName(x.s).value;
        if name in stack then [("$ref", Marker(name))] + rest
        else
          match Defer(defs, name, stack)
          case Some(e) => [("$ref", e)] + rest
          case None => rest
      else [(k, Expand(defs, x, stack))] + rest
  }

  // ---------------------------------------------------------------------------
  // Sibling independence

  /** Members are rewritten independently of one another: no mark made while
      expanding one reference is seen by its siblings. */
  lemma {:induction false} ExpandFieldsAppend(defs: Fields, a: Fields, b: Fields, stack: set<string>)
    ensures ExpandFields(defs, a + b, stack) == ExpandFields(defs, a, stack) + ExpandFields(defs, b, stack)
    decreases |a|
  {
    if |a| > 0 {
      assert (a + b)[1..] == a[1..] + b;
      assert (a + b)[0] == a[0];
      ExpandFieldsAppend(defs, a[1..], b, stack);
    } else {
      assert a + b == b;
    }
  }

  /** A reference to a name on the current path becomes the marker and is not
      expanded. */
  lemma RefOnPathIsMarker(defs: Fields, name: string, stack: set<string>)
    requires PlainName(name) && name in stack
    ensures ExpandFields(defs, [("$ref", JStr(DefinitionsPrefix + name))], stack) == [("$ref", Marker(name))]
  {
    RefNameOfPointer(name);
  }

  /** A reference to a name off the current path becomes that name's expansion
      along the same path, and is dropped when the expansion is null. */
  lemma RefOffPathIsExpanded(defs: Fields, name: string, stack: set<string>)
    requires PlainName(name) && name !in stack
    ensures Truthy(Get(defs, name)) ==>
      ExpandFields(defs, [("$ref", JStr(DefinitionsPrefix + name))], stack)
        == [("$ref", Expand(defs, Get(defs, name).value, stack + {name}))]
    ensures !Truthy(Get(defs, name)) ==>
      ExpandFields(defs, [("$ref", JStr(DefinitionsPrefix + name))], stack) == []
  {
    RefNameOfPointer(name);
  }

  // ---------------------------------------------------------------------------
  // Cycles

  /** A definition that is a bare reference to itself expands once, with the
      inner reference cut off by the marker. */
  lemma SelfReference(defs: Fields, name: string)
    requires PlainName(name)
    requires Get(defs, name) == Some(JObj([("$ref", JStr(DefinitionsPrefix + name))]))
    ensures Defer(defs, name, {}) == Some(JObj([("$ref", Marker(name))]))
  {
    assert {} + {name} == {name};
    RefOnPathIsMarker(defs, name, {name});
  }

  /** A definition that reaches itself through nested shapes (`properties`,
      `items`) is cut off at the inner reference. */
  lemma NestedSelfReference(defs: Fields, name: string)
    requires PlainName(name)
    requires Get(defs, name) == Some(JObj([("properties", JObj([("children", JObj([("items",
               JObj([("$ref", JStr(DefinitionsPrefix + name))]))]))]))]))
    ensures Defer(defs, name, {}) == Some(JObj([("properties", JObj([("children", JObj([("items",
               JObj([("$ref", Marker(name))]))]))]))]))
  {
    var s := {name};
    assert {} + {name} == s;
    RefOnPathIsMarker(defs, name, s);
    var items := JObj([("$ref", JStr(DefinitionsPrefix + name))]);
    assert Expand(defs, items, s) == JObj([("$ref", Marker(name))]);
    var children := JObj([("items", items)]);
    assert ExpandFields(defs, [("items", items)], s) == [("items", Expand(defs, items, s))];
    var props := JObj([("children", children)]);
    assert ExpandFields(defs, [("children", children)], s) == [("children", Expand(defs, children, s))];
    assert ExpandFields(defs, [("properties", props)], s) == [("properties", Expand(defs, props, s))];
  }

  /** Two definitions that refer to each other: expanding the first inlines the
      second once, and the second's reference back becomes the marker. */
  lemma MutualReference(defs: Fields, a: string, b: string)
    requires PlainName(a) && PlainName(b) && a != b
    requires Get(defs, a) == Some(JObj([("$ref", JStr(DefinitionsPrefix + b))]))
    requires Get(defs, b) == Some(JObj([("$ref", JStr(DefinitionsPrefix + a))]))
    ensures Defer(defs, a, {}) == Some(JObj([("$ref", JObj([("$ref", Marker(a))]))]))
  {
    assert {} + {a} == {a};
    assert {a} + {b} == {a, b};
    RefOnPathIsMarker(defs, a, {a, b});
    RefOffPathIsExpanded(defs, b, {a});
    assert Expand(defs, Get(defs, a).value, {a}) == JObj(ExpandFields(defs, [("$ref", JStr(DefinitionsPrefix + b))], {a}));
  }

  // ---------------------------------------------------------------------------
  // What the expansion leaves behind

  /** No member anywhere in `v` is a reference to a definition. */
  predicate RefFree(v: Json) {
    match v
    case JArr(a) => RefFreeList(a)
    case JObj(fs) => RefFreeFields(fs)
    case _ => true
  }

  predicate RefFreeList(a: seq<Json>) {
    forall i :: 0 <= i < |a| ==> RefFree(a[i])
  }

  predicate RefFreeFields(fs: Fields) {
    forall i :: 0 <= i < |fs| ==> !IsDefinitionRef(fs[i].0, fs[i].1) && (assert fs[i].1 < fs[i]; RefFree(fs[i].1))
  }

  /** No definition is itself a bare reference string (a definition that is
      one is spliced in as the string, which the rewrite does not revisit). */
  predicate NoBareReference(defs: Fields) {
    forall i :: 0 <= i < |defs| ==> !(defs[i].1.JStr? && RefName(defs[i].1.s).Some?)
  }

  /** After expansion no definition reference is left: each one became an
      expansion, a marker, or nothing. */
  lemma {:induction false} DeferRefFree(defs: Fields, key: string, visited: set<string>)
    requires NoBareReference(defs)
    requires Defer(defs, key, visited).Some?
    ensures RefFree(Defer(defs, key, visited).value)
    ensures !(Defer(defs, key, visited).value.JStr? && RefName(Defer(defs, key, visited).value.s).Some?)
    decreases |Keys(defs) - visited|, if key in visited then 2 else 0, 0, 0
  {
    var def := Get(defs, key).value;
    var stack := visited + {key};
    if key in visited {
      assert stack == visited;
    } else {
      VisitShrinks(Keys(defs), visited, key);
    }
    ExpandRefFree(defs, def, stack);
    assert (key, def) in defs;
  }

  lemma {:induction false} ExpandRefFree(defs: Fields, v: Json, stack: set<string>)
    requires NoBareReference(defs)
    ensures RefFree(Expand(defs, v, stack))
    ensures v.JStr? ==> Expand(defs, v, stack) == v
    decreases |Keys(defs) - stack|, 1, v, 2
  {
    match v
    case JArr(a) => ExpandListRefFree(defs, a, stack);
    case JObj(fs) => ExpandFieldsRefFree(defs, fs, stack);
    case _ =>
  }

  lemma {:induction false} ExpandListRefFree(defs: Fields, a: seq<Json>, stack: set<string>)
    requires NoBareReference(defs)
    ensures RefFreeList(ExpandList(defs, a, stack))
    decreases |Keys(defs) - stack|, 1, a, 2
  {
    if |a| > 0 {
      ExpandRefFree(defs, a[0], stack);
      ExpandListRefFree(defs, a[1..], stack);
      var r := ExpandList(defs, a, stack);
      assert r == [Expand(defs, a[0], stack)] + ExpandList(defs, a[1..], stack);
      assert forall i :: 1 <= i < |r| ==> r[i] == ExpandList(defs, a[1..], stack)[i - 1];
    }
  }

  lemma {:induction false} ExpandFieldsRefFree(defs: Fields, fs: Fields, stack: set<string>)
    requires NoBareReference(defs)
    ensures RefFreeFields(ExpandFields(defs, fs, stack))
    decreases |Keys(defs) - stack|, 1, fs, 1
  {
    if |fs| > 0 {
      var rest := ExpandFields(defs, fs[1..], stack);
      ExpandFieldsRefFree(defs, fs[1..], stack);
      ExpandFieldsAppend(defs, [fs[0]], fs[1..], stack);
      assert [fs[0]] + fs[1..] == fs;
      var head := ExpandFields(defs, [fs[0]], stack);
      HeadRefFree(defs, fs, stack);
      RefFreeFieldsConcat(head, rest);
    }
  }

  /** The rewrite of the first member alone leaves no definition reference. */
  lemma {:induction false} HeadRefFree(defs: Fields, fs: Fields, stack: set<string>)
    requires NoBareReference(defs)
    requires |fs| > 0
    ensures RefFreeFields(ExpandFields(defs, [fs[0]], stack))
    decreases |Keys(defs) - stack|, 1, fs, 0
  {
    var (k, x) := fs[0];
    assert x < fs[0];
    var one := [fs[0]];
    assert one[1..] == [];
    if IsDefinitionRef(k, x) {
      var name := RefName(x.s).value;
      if name in stack {
        RefNameOfPointer(name);
        assert !IsDefinitionRef("path", JStr(DefinitionsPrefix + name));
        assert RefFree(Marker(name));
      } else if Defer(defs, name, stack).Some? {
        DeferRefFree(defs, name, stack);
      }
    } else {
      ExpandRefFree(defs, x, stack);
    }
  }

  lemma RefFreeFieldsConcat(a: Fields, b: Fields)
    requires RefFreeFields(a) && RefFreeFields(b)
    ensures RefFreeFields(a + b)
  {
    var c := a + b;
    forall i | 0 <= i < |c| ensures !IsDefinitionRef(c[i].0, c[i].1) && RefFree(c[i].1) {
      if i < |a| { assert c[i] == a[i]; } else { assert c[i] == b[i - |a|]; }
    }
  }

  /** Expansion changes nothing in a value without definition references, so
      expanding an expanded definition again leaves it as it is. */
  lemma {:induction false} ExpandRefFreeIsIdentity(defs: Fields, v: Json, stack: set<string>)
    requires RefFree(v)
    ensures Expand(defs, v, stack) == v
    decreases v
  {
    match v
    case JArr(a) => ExpandListRefFreeIsIdentity(defs, a, stack);
    case JObj(fs) => ExpandFieldsRefFreeIsIdentity(defs, fs, stack);
    case _ =>
  }

  lemma {:induction false} ExpandListRefFreeIsIdentity(defs: Fields, a: seq<Json>, stack: set<string>)
    requires RefFreeList(a)
    ensures ExpandList(defs, a, stack) == a
    decreases a
  {
    if |a| > 0 {
      ExpandRefFreeIsIdentity(defs, a[0], stack);
      ExpandListRefFreeIsIdentity(defs, a[1..], stack);
      assert a == [a[0]] + a[1..];
    }
  }

  lemma {:induction false} ExpandFieldsRefFreeIsIdentity(defs: Fields, fs: Fields, stack: set<string>)
    requires RefFreeFields(fs)
    ensures ExpandFields(defs, fs, stack) == fs
    decreases fs
  {
    if |fs| > 0 {
      var (k, x) := fs[0];
      assert x < fs[0];
      ExpandRefFreeIsIdentity(defs, x, stack);
      ExpandFieldsRefFreeIsIdentity(defs, fs[1..], stack);
      assert fs == [fs[0]] + fs[1..];
    }
  }

  // ---------------------------------------------------------------------------
  // Recursion depth

  /** The nesting depth of `defer` calls made by `Defer(defs, key, visited)`:
      one for this call when the definition exists, plus the deepest call made
      for a reference inside it. */
  ghost function CallDepth(defs: Fields, key: string, visited: set<string>): (d: nat)
    ensures d <= |Keys(defs) - (visited - {key})|
    decreases |Keys(defs) - visited|, if key in visited then 2 else 0, 0
  {
    var def := Get(defs, key);
    if !Truthy(def) then 0
    else
      var stack := visited + {key};
      DepthRoom(Keys(defs), visited, key);
      1 + ExpandDepth(defs, def.value, stack)
  }

  /** Entering `key` leaves one name fewer to enter than the bound allows. */
  lemma DepthRoom(names: set<string>, visited: set<string>, key: string)
    requires key in names
    ensures |names - (visited + {key})| + 1 <= |names - (visited - {key})|
    ensures key in visited ==> visited + {key} == visited
    ensures key !in visited ==> |names - (visited + {key})| < |names - visited|
  {
    if key in visited {
      assert visited + {key} == visited;
      assert names - (visited - {key}) == (names - visited) + {key};
    } else {
      VisitShrinks(names, visited, key);
      assert visited - {key} == visited;
    }
  }

  /** The deepest `defer` call made while rewriting `v` along `stack`. */
  ghost function ExpandDepth(defs: Fields, v: Json, stack: set<string>): (d: nat)
    ensures d <= |Keys(defs) - stack|
    decreases |Keys(defs) - stack|, 1, v
  {
    match v
    case JArr(a) => ListDepth(defs, a, stack)
    case JObj(fs) => FieldsDepth(defs, fs, stack)
    case _ => 0
  }

  ghost function ListDepth(defs: Fields, a: seq<Json>, stack: set<string>): (d: nat)
    ensures d <= |Keys(defs) - stack|
    decreases |Keys(defs) - stack|, 1, a
  {
    if |a| == 0 then 0
    else Max(ExpandDepth(defs, a[0], stack), ListDepth(defs, a[1..], stack))
  }

  ghost function FieldsDepth(defs: Fields, fs: Fields, stack: set<string>): (d: nat)
    ensures d <= |Keys(defs) - stack|
    decreases |Keys(defs) - stack|, 1, fs
  {
    if |fs| == 0 then 0
    else
      var rest := FieldsDepth(defs, fs[1..], stack);
      var (k, x) := fs[0];
      assert x < fs[0];
      if IsDefinitionRef(k, x) then
        var name := RefName(x.s).value;
        if name in stack then rest
        else
          assert stack - {name} == stack;
          Max(CallDepth(defs, name, stack), rest)
      else Max(ExpandDepth(defs, x, stack), rest)
  }

  function Max(a: nat, b: nat): nat {
    if a < b then b else a
  }

  // ---------------------------------------------------------------------------
  // The rebuilt definitions section

  /** The names of `entries`, in order, whose definition is truthy. */
  function TruthyNames(defs: Fields, entries: Fields): seq<string>
    decreases |entries|
  {
    if |entries| == 0 then []
    else
      var name := entries[|entries| - 1].0;
      TruthyNames(defs, entries[..|entries| - 1]) + (if Truthy(Get(defs, name)) then [name] else [])
  }

  /** The definitions section as `resolve` rebuilds it: for each entry of
      `entries` in order, the expansion of that name, kept only when non-null. */
  function ExpandDefinitions(defs: Fields, entries: Fields): (r: Fields)
    ensures Keys(r) == set k | k in Keys(entries) && Truthy(Get(defs, k))
    ensures forall k :: k in Keys(r) ==> Get(r, k) == Defer(defs, k, {})
    ensures DistinctKeys(r)
    decreases |entries|
  {
    if |entries| == 0 then []
    else
      var init := entries[..|entries| - 1];
      var name := entries[|entries| - 1].0;
      var r := ExpandDefinitions(defs, init);
      assert Keys(entries) == Keys(init) + {name} by {
        assert entries == init + [entries[|entries| - 1]];
        KeysAppend(init, name, entries[|entries| - 1].1);
      }
      match Defer(defs, name, {})
      case Some(e) => SetShape(r, name, e); Set(r, name, e)
      case None => r
  }

  /** The rebuilt section keeps the order of `entries`: its names are the
      truthy ones among them, in the order they come. */
  lemma {:induction false} ExpandedSectionOrder(defs: Fields, entries: Fields)
    requires DistinctKeys(entries)
    ensures KeySeq(ExpandDefinitions(defs, entries)) == TruthyNames(defs, entries)
    decreases |entries|
  {
    if |entries| > 0 {
      var init := entries[..|entries| - 1];
      var name := entries[|entries| - 1].0;
      forall i | 0 <= i < |init| ensures init[i].0 != name {
        assert init[i] == entries[i];
      }
      assert DistinctKeys(init) by {
        forall i, j | 0 <= i < j < |init| ensures init[i].0 != init[j].0 {
          assert init[i] == entries[i] && init[j] == entries[j];
        }
      }
      ExpandedSectionOrder(defs, init);
      var r := ExpandDefinitions(defs, init);
      assert name !in Keys(r);
      match Defer(defs, name, {})
      case Some(e) =>
        SetShape(r, name, e);
        KeySeqAppend(r, name, e);
      case None =>
    }
  }

  /** Appending a member appends its name. */
  lemma KeySeqAppend(fs: Fields, k: string, v: Json)
    ensures KeySeq(fs + [(k, v)]) == KeySeq(fs) + [k]
  {
  }

  /** The rebuilt section names exactly the definitions whose value is truthy,
      and holds for each the expansion `Defer` gives it. */
  lemma ExpandedSectionContents(defs: Fields, name: string)
    ensures name in Keys(ExpandDefinitions(defs, defs)) <==> Truthy(Get(defs, name))
    ensures Truthy(Get(defs, name)) ==>
      Get(ExpandDefinitions(defs, defs), name) == Some(Expand(defs, Get(defs, name).value, {name}))
  {
    assert {} + {name} == {name};
  }
}
