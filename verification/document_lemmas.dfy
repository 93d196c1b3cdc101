/** What `parse` does to a document, member by member: which members it
    keeps, which it rewrites and which it drops. */
module SiwaFacts {
  import opened Wrappers
  import opened JsValues
  import opened Pointers
  import opened Normalize
  import opened NormalizeFacts
  import opened Methods
  import opened Siwa

  // ---------------------------------------------------------------------------
  // Parameters and responses

  /** A map of parameters becomes the list of its looked-up named entries, in
      key order, when none of them looks up to null. */
  lemma MapParametersInKeyOrder(spec: Option<Json>, fuel: Fuel, m: Fields)
    requires forall i :: 0 <= i < |m| ==>
      Lookup(spec, fuel, PropertyFragment(m[i])).Success? && Lookup(spec, fuel, PropertyFragment(m[i])).value.Some?
    ensures Parameters(spec, fuel, JObj(m)).Success?
    ensures |Parameters(spec, fuel, JObj(m)).value| == |m|
    ensures forall i :: 0 <= i < |m| ==>
      Parameters(spec, fuel, JObj(m)).value[i] == Lookup(spec, fuel, PropertyFragment(m[i])).value.value
  {
    var xs := Fragments(m);
    assert forall i :: 0 <= i < |xs| ==> xs[i] == PropertyFragment(m[i]);
    LookupEachKeepsAll(spec, fuel, xs);
  }

  /** A list of parameters drops an entry that looks up to null and keeps the
      others in order. */
  lemma ListParametersDropNull(spec: Option<Json>, fuel: Fuel, a: seq<Json>, i: nat)
    requires i < |a| && Lookup(spec, fuel, a[i]) == Success(None)
    ensures Parameters(spec, fuel, JArr(a)) == Parameters(spec, fuel, JArr(a[..i] + a[i + 1..]))
  {
    LookupEachDropsNull(spec, fuel, a, i);
  }

  /** A list of parameters none of which looks up to null keeps them all, in
      order. */
  lemma ListParametersInOrder(spec: Option<Json>, fuel: Fuel, a: seq<Json>)
    requires forall i :: 0 <= i < |a| ==> Lookup(spec, fuel, a[i]).Success? && Lookup(spec, fuel, a[i]).value.Some?
    ensures Parameters(spec, fuel, JArr(a)).Success?
    ensures |Parameters(spec, fuel, JArr(a)).value| == |a|
    ensures forall i :: 0 <= i < |a| ==> Parameters(spec, fuel, JArr(a)).value[i] == Lookup(spec, fuel, a[i]).value.value
  {
    LookupEachKeepsAll(spec, fuel, a);
  }

  /** The responses map holds, under each name of the original map, the
      looked-up `{name, ...entry}`, and nothing where that lookup is null. */
  lemma {:induction false} ResponsesByName(spec: Option<Json>, fuel: Fuel, m: Fields, k: string)
    requires DistinctKeys(m)
    requires LookupResponses(spec, fuel, m).Success?
    ensures k in Keys(m) ==> Lookup(spec, fuel, PropertyFragment((k, Get(m, k).value))).Success?
    ensures Get(LookupResponses(spec, fuel, m).value, k) ==
      if k in Keys(m) then Lookup(spec, fuel, PropertyFragment((k, Get(m, k).value))).value else None
    decreases |m|
  {
    if |m| > 0 {
      var init := m[..|m| - 1];
      var last := m[|m| - 1];
      DistinctLast(m);
      ResponsesByName(spec, fuel, init, k);
    }
  }

  // ---------------------------------------------------------------------------
  // Operations

  /** A normalized operation holds its looked-up parameters as a list and its
      looked-up responses as a map, each taken along its fallback chain, and
      keeps every other member. */
  lemma OperationContents(doc: Json, fuel: Fuel, docfs: Fields, pfs: Fields, ofs: Fields)
    requires NormalizeOperation(doc, fuel, docfs, pfs, ofs).Success?
    ensures var r := NormalizeOperation(doc, fuel, docfs, pfs, ofs).value;
      var pv := FirstTruthy([Get(ofs, "parameters"), Get(pfs, "parameters"), Get(docfs, "parameters")], JArr([]));
      var rv := FirstTruthy([Get(ofs, "responses"), Get(pfs, "responses"), Get(docfs, "responses")], JObj([]));
      && Parameters(Some(doc), fuel, pv).Success?
      && Get(r, "parameters") == Some(JArr(Parameters(Some(doc), fuel, pv).value))
      && Responses(Some(doc), fuel, rv).Success?
      && Get(r, "responses") == Some(JObj(Responses(Some(doc), fuel, rv).value))
      && forall k :: k != "parameters" && k != "responses" ==> Get(r, k) == Get(ofs, k)
  {
    var pv := FirstTruthy([Get(ofs, "parameters"), Get(pfs, "parameters"), Get(docfs, "parameters")], JArr([]));
    var rv := FirstTruthy([Get(ofs, "responses"), Get(pfs, "responses"), Get(docfs, "responses")], JObj([]));
    NormalizeOperationSteps(doc, fuel, docfs, pfs, ofs);
    TwoRewrites(ofs, pv, JArr(Parameters(Some(doc), fuel, pv).value), rv, JObj(Responses(Some(doc), fuel, rv).value));
  }

  /** The four member writes `NormalizeOperation` makes, in order. */
  lemma NormalizeOperationSteps(doc: Json, fuel: Fuel, docfs: Fields, pfs: Fields, ofs: Fields)
    requires NormalizeOperation(doc, fuel, docfs, pfs, ofs).Success?
    ensures var pv := FirstTruthy([Get(ofs, "parameters"), Get(pfs, "parameters"), Get(docfs, "parameters")], JArr([]));
      var rv := FirstTruthy([Get(ofs, "responses"), Get(pfs, "responses"), Get(docfs, "responses")], JObj([]));
      && Parameters(Some(doc), fuel, pv).Success?
      && Responses(Some(doc), fuel, rv).Success?
      && NormalizeOperation(doc, fuel, docfs, pfs, ofs).value ==
           Set(Set(Set(Set(ofs, "parameters", pv), "parameters", JArr(Parameters(Some(doc), fuel, pv).value)),
               "responses", rv), "responses", JObj(Responses(Some(doc), fuel, rv).value))
  {
    var pv := FirstTruthy([Get(ofs, "parameters"), Get(pfs, "parameters"), Get(docfs, "parameters")], JArr([]));
    var withParameters := Set(ofs, "parameters", pv);
    assert Parameters(Some(doc), fuel, pv).Success?;
    var listed := Set(withParameters, "parameters", JArr(Parameters(Some(doc), fuel, pv).value));
    assert Get(listed, "responses") == Get(ofs, "responses");
  }

  /** Writing `parameters` twice and then `responses` twice leaves the last
      values written there and every other member as it was. */
  lemma TwoRewrites(fs: Fields, p1: Json, p2: Json, r1: Json, r2: Json)
    ensures var r := Set(Set(Set(Set(fs, "parameters", p1), "parameters", p2), "responses", r1), "responses", r2);
      && Get(r, "parameters") == Some(p2)
      && Get(r, "responses") == Some(r2)
      && forall k :: k != "parameters" && k != "responses" ==> Get(r, k) == Get(fs, k)
  {
    var a := Set(fs, "parameters", p1);
    var b := Set(a, "parameters", p2);
    var c := Set(b, "responses", r1);
    var r := Set(c, "responses", r2);
    assert Get(c, "parameters") == Get(b, "parameters");
    forall k | k != "parameters" && k != "responses" ensures Get(r, k) == Get(fs, k) {
      assert Get(r, k) == Get(c, k) == Get(b, k) == Get(a, k);
    }
  }

  /** The members of a path item: a method key holds its normalized operation,
      any other key keeps its value. */
  lemma {:induction false} MethodsByKey(doc: Json, fuel: Fuel, docfs: Fields, pfs: Fields, entries: Fields, k: string)
    requires DistinctKeys(entries)
    requires WalkMethods(doc, fuel, docfs, pfs, entries).Success?
    ensures k in Keys(entries) && IsMethod(k) ==> Operation(doc, fuel, docfs, pfs, Get(entries, k).value).Success?
    ensures Get(WalkMethods(doc, fuel, docfs, pfs, entries).value, k) ==
      if k !in Keys(entries) then None
      else if IsMethod(k) then Some(Operation(doc, fuel, docfs, pfs, Get(entries, k).value).value)
      else Get(entries, k)
    decreases |entries|
  {
    if |entries| > 0 {
      DistinctHead(entries);
      MethodsByKey(doc, fuel, docfs, pfs, entries[1..], k);
    }
  }

  /** The members of a path item keep their names and their order. */
  lemma {:induction false} MethodsKeepKeyOrder(doc: Json, fuel: Fuel, docfs: Fields, pfs: Fields, entries: Fields)
    requires WalkMethods(doc, fuel, docfs, pfs, entries).Success?
    ensures KeySeq(WalkMethods(doc, fuel, docfs, pfs, entries).value) == KeySeq(entries)
    decreases |entries|
  {
    if |entries| > 0 {
      var r := WalkMethods(doc, fuel, docfs, pfs, entries).value;
      var rest := WalkMethods(doc, fuel, docfs, pfs, entries[1..]);
      assert rest.Success? && r == [(entries[0].0, r[0].1)] + rest.value;
      MethodsKeepKeyOrder(doc, fuel, docfs, pfs, entries[1..]);
      assert forall i :: 1 <= i < |r| ==> r[i] == rest.value[i - 1];
      assert forall i :: 1 <= i < |entries| ==> entries[i] == entries[1..][i - 1];
    }
  }

  /** In the model, where every lookup works on its own copy, walking the
      operations leaves a path item's own `parameters` and `responses` as
      they were, so every operation falls back to the same values. */
  lemma FallbacksSurviveTheWalk(doc: Json, fuel: Fuel, docfs: Fields, pfs: Fields)
    requires DistinctKeys(pfs)
    requires WalkMethods(doc, fuel, docfs, pfs, pfs).Success?
    ensures Get(WalkMethods(doc, fuel, docfs, pfs, pfs).value, "parameters") == Get(pfs, "parameters")
    ensures Get(WalkMethods(doc, fuel, docfs, pfs, pfs).value, "responses") == Get(pfs, "responses")
  {
    ParametersIsNotMethod();
    ResponsesIsNotMethod();
    MethodsByKey(doc, fuel, docfs, pfs, pfs, "parameters");
    MethodsByKey(doc, fuel, docfs, pfs, pfs, "responses");
  }

  // ---------------------------------------------------------------------------
  // Paths

  /** The members of `paths`: each surviving path holds its processed item,
      and a path whose `$ref` leads nowhere is gone. */
  lemma {:induction false} PathsByKey(doc: Json, fuel: Fuel, docfs: Fields, entries: Fields, k: string)
    requires DistinctKeys(entries)
    requires WalkPaths(doc, fuel, docfs, entries).Success?
    ensures k in Keys(entries) ==> PathItem(doc, fuel, docfs, Get(entries, k).value).Success?
    ensures Get(WalkPaths(doc, fuel, docfs, entries).value, k) ==
      if k !in Keys(entries) then None else PathItem(doc, fuel, docfs, Get(entries, k).value).value
    decreases |entries|
  {
    if |entries| > 0 {
      DistinctHead(entries);
      PathsByKey(doc, fuel, docfs, entries[1..], k);
    }
  }

  /** A path whose `$ref` does not resolve is deleted from `paths`. */
  lemma DanglingPathIsDropped(doc: Json, fuel: Fuel, docfs: Fields, entries: Fields, k: string)
    requires DistinctKeys(entries)
    requires WalkPaths(doc, fuel, docfs, entries).Success?
    requires Get(entries, k).Some? && Get(entries, k).value != JNull
    requires var ref := Prop(Get(entries, k).value, "$ref"); Truthy(ref) && !Truthy(GetRef(Some(doc), ref))
    ensures k !in Keys(WalkPaths(doc, fuel, docfs, entries).value)
  {
    PathsByKey(doc, fuel, docfs, entries, k);
  }

  /** A null path item makes `parse` throw. */
  lemma {:induction false} NullPathThrows(doc: Json, fuel: Fuel, docfs: Fields, entries: Fields, i: nat)
    requires i < |entries| && entries[i].1 == JNull
    ensures WalkPaths(doc, fuel, docfs, entries).Failure?
    decreases i
  {
    if i > 0 {
      assert entries[1..][i - 1] == entries[i];
      NullPathThrows(doc, fuel, docfs, entries[1..], i - 1);
    }
  }

  // ---------------------------------------------------------------------------
  // The whole document

  /** `parse` writes only `paths`: an object of paths is walked member by
      member, and every other member of the document is kept as a value of
      the model, where lookups do not share structure with the document. */
  lemma ParseContents(spec: Option<Json>, fuel: Fuel)
    requires Parse(spec, fuel).Success?
    ensures var doc := spec.value;
      var r := Parse(spec, fuel).value;
      && doc.JObj?
      && (forall k :: k != "paths" ==> Get(r.fields, k) == Get(doc.fields, k))
      && (Get(doc.fields, "paths").value.JObj? ==>
            var entries := Get(doc.fields, "paths").value.fields;
            && WalkPaths(doc, fuel, doc.fields, entries).Success?
            && Get(r.fields, "paths") == Some(JObj(WalkPaths(doc, fuel, doc.fields, entries).value)))
      && (!Get(doc.fields, "paths").value.JObj? && !Get(doc.fields, "paths").value.JArr? ==> r == doc)
  {
  }
}
