/** Decoded JSON values together with the pieces of JavaScript semantics the
    engine relies on: truthiness, own-property access, member update and
    deletion, `Object.assign`, and the exceptions a property access can raise. */
module JsValues {
  import opened Wrappers

  /** A decoded JSON value. An object keeps its members in enumeration order,
      because that order drives iteration and the order of generated children. */
  datatype Json =
    | JNull
    | JBool(b: bool)
    | JNum(n: real)
    | JStr(s: string)
    | JArr(items: seq<Json>)
    | JObj(fields: Fields)

  /** The members of an object, in enumeration order. */
  type Fields = seq<(string, Json)>

  /** The exceptions the engine can raise. */
  datatype Exception =
    | SpecificationError(message: string)   // thrown deliberately by `parse`
    | TypeError                             // a property read or call on a value that lacks it
    | StackOverflow                         // the engine's recursion limit

  /** JavaScript truthiness of a value; `None` is `undefined`. JSON has no NaN,
      so a number is falsy exactly when it is zero. */
  predicate Truthy(v: Option<Json>) {
    match v
    case None => false
    case Some(JNull) => false
    case Some(JBool(b)) => b
    case Some(JNum(n)) => n != 0.0
    case Some(JStr(s)) => |s| > 0
    case Some(JArr(_)) => true
    case Some(JObj(_)) => true
  }

  // ---------------------------------------------------------------------------
  // Objects as ordered member lists

  /** The member names of an object. */
  function Keys(fs: Fields): set<string> {
    set i | 0 <= i < |fs| :: fs[i].0
  }

  /** The member names of an object, in order. */
  function KeySeq(fs: Fields): (ks: seq<string>)
    ensures |ks| == |fs|
    ensures forall i :: 0 <= i < |fs| ==> ks[i] == fs[i].0
  {
    seq(|fs|, i requires 0 <= i < |fs| => fs[i].0)
  }

  /** No member name occurs twice, as in every JavaScript object. */
  predicate DistinctKeys(fs: Fields) {
    forall i, j :: 0 <= i < j < |fs| ==> fs[i].0 != fs[j].0
  }

  /** `obj[k]` for an own member `k`: its value, or `undefined`. */
  function Get(fs: Fields, k: string): (r: Option<Json>)
    ensures r.Some? <==> k in Keys(fs)
    ensures r.Some? ==> (k, r.value) in fs
  {
    if |fs| == 0 then None
    else if fs[0].0 == k then Some(fs[0].1)
    else
      assert Keys(fs) == {fs[0].0} + Keys(fs[1..]) by {
        forall x | x in Keys(fs) ensures x in {fs[0].0} + Keys(fs[1..]) {
          var i :| 0 <= i < |fs| && fs[i].0 == x;
          if i > 0 { assert fs[1..][i - 1].0 == x; }
        }
      }
      var r := Get(fs[1..], k);
      assert forall i :: 1 <= i < |fs| ==> fs[i] == fs[1..][i - 1];
      r
  }

  /** `obj[k]` reads the first member named `k`. */
  lemma {:induction false} GetAt(fs: Fields, k: string, i: nat)
    requires i < |fs| && fs[i].0 == k
    requires forall j :: 0 <= j < i ==> fs[j].0 != k
    ensures Get(fs, k) == Some(fs[i].1)
    decreases i
  {
    if i > 0 {
      assert fs[1..][i - 1] == fs[i];
      GetAt(fs[1..], k, i - 1);
    }
  }

  /** `obj[k] = v`: an existing member is overwritten where it stands, a new
      one is appended. */
  function Set(fs: Fields, k: string, v: Json): (r: Fields)
    ensures Get(r, k) == Some(v)
    ensures forall k' :: k' != k ==> Get(r, k') == Get(fs, k')
  {
    if k in Keys(fs) then
      var r := seq(|fs|, i requires 0 <= i < |fs| => if fs[i].0 == k then (k, v) else fs[i]);
      SameKeysSameGet(fs, r, k, v);
      r
    else
      var r := fs + [(k, v)];
      AppendGet(fs, k, v);
      r
  }

  /** Where `obj[k] = v` puts the member: in place when `k` is present, at the
      end otherwise; the names stay distinct. */
  lemma SetShape(fs: Fields, k: string, v: Json)
    ensures Keys(Set(fs, k, v)) == Keys(fs) + {k}
    ensures k in Keys(fs) ==> KeySeq(Set(fs, k, v)) == KeySeq(fs)
    ensures k !in Keys(fs) ==> Set(fs, k, v) == fs + [(k, v)]
    ensures DistinctKeys(fs) ==> DistinctKeys(Set(fs, k, v))
  {
    if k in Keys(fs) {
      var r := seq(|fs|, i requires 0 <= i < |fs| => if fs[i].0 == k then (k, v) else fs[i]);
      SameKeysSameGet(fs, r, k, v);
    } else {
      KeysAppend(fs, k, v);
      AppendGet(fs, k, v);
    }
  }

  /** Writing a member whose name occurs once overwrites it where it stands. */
  lemma SetAt(fs: Fields, i: nat, v: Json)
    requires i < |fs|
    requires forall j :: 0 <= j < |fs| && j != i ==> fs[j].0 != fs[i].0
    ensures Set(fs, fs[i].0, v) == fs[i := (fs[i].0, v)]
  {
    assert fs[i].0 in Keys(fs);
  }

  /** Reading through an in-place overwrite. */
  lemma SameKeysSameGet(fs: Fields, r: Fields, k: string, v: Json)
    requires |r| == |fs|
    requires forall i :: 0 <= i < |fs| ==> r[i] == if fs[i].0 == k then (k, v) else fs[i]
    requires k in Keys(fs)
    ensures Get(r, k) == Some(v)
    ensures forall k' :: k' != k ==> Get(r, k') == Get(fs, k')
    ensures Keys(r) == Keys(fs) && KeySeq(r) == KeySeq(fs)
    ensures DistinctKeys(fs) ==> DistinctKeys(r)
  {
    assert KeySeq(r) == KeySeq(fs);
    assert Keys(r) == Keys(fs) by {
      forall x | x in Keys(r) ensures x in Keys(fs) {
        var i :| 0 <= i < |r| && r[i].0 == x;
        assert fs[i].0 == x;
      }
      forall x | x in Keys(fs) ensures x in Keys(r) {
        var i :| 0 <= i < |fs| && fs[i].0 == x;
        assert r[i].0 == x;
      }
    }
    var i := FirstIndex(fs, k);
    GetAt(r, k, i);
    forall k' | k' != k ensures Get(r, k') == Get(fs, k') {
      if k' in Keys(fs) {
        var j := FirstIndex(fs, k');
        assert r[j] == fs[j];
        GetAt(fs, k', j);
        GetAt(r, k', j);
      }
    }
  }

  /** The position of the first member named `k`. */
  lemma FirstIndex(fs: Fields, k: string) returns (i: nat)
    requires k in Keys(fs)
    ensures i < |fs| && fs[i].0 == k
    ensures forall j :: 0 <= j < i ==> fs[j].0 != k
  {
    KeysCons(fs);
    if fs[0].0 == k {
      i := 0;
    } else {
      var i' := FirstIndex(fs[1..], k);
      i := i' + 1;
    }
  }

  /** The member names after appending a member. */
  lemma KeysAppend(fs: Fields, k: string, v: Json)
    ensures Keys(fs + [(k, v)]) == Keys(fs) + {k}
  {
    var r := fs + [(k, v)];
    forall x | x in Keys(r) ensures x in Keys(fs) + {k} {
      var i :| 0 <= i < |r| && r[i].0 == x;
      if i < |fs| { assert fs[i].0 == x; }
    }
    assert r[|fs|].0 == k;
    forall x | x in Keys(fs) ensures x in Keys(r) {
      var i :| 0 <= i < |fs| && fs[i].0 == x;
      assert r[i].0 == x;
    }
  }

  /** Reading through an append of a fresh member. */
  lemma AppendGet(fs: Fields, k: string, v: Json)
    requires k !in Keys(fs)
    ensures Get(fs + [(k, v)], k) == Some(v)
    ensures forall k' :: k' != k ==> Get(fs + [(k, v)], k') == Get(fs, k')
    ensures DistinctKeys(fs) ==> DistinctKeys(fs + [(k, v)])
  {
    var r := fs + [(k, v)];
    assert r[|fs|].0 == k;
    forall j | 0 <= j < |fs| ensures r[j].0 != k {
      assert fs[j].0 in Keys(fs);
    }
    KeysAppend(fs, k, v);
    GetAt(r, k, |fs|);
    forall k' | k' != k ensures Get(r, k') == Get(fs, k') {
      if k' in Keys(fs) {
        var j := FirstIndex(fs, k');
        assert r[j] == fs[j];
        GetAt(fs, k', j);
        GetAt(r, k', j);
      }
    }
  }

  /** `delete obj[k]`: every member named `k` goes, the others keep their order. */
  function Delete(fs: Fields, k: string): (r: Fields)
    ensures Get(r, k) == None
    ensures forall k' :: k' != k ==> Get(r, k') == Get(fs, k')
  {
    if |fs| == 0 then []
    else
      var rest := Delete(fs[1..], k);
      if fs[0].0 == k then rest
      else
        var r := [fs[0]] + rest;
        assert r[1..] == rest;
        r
  }

  /** `delete` removes exactly the name `k`, keeps the names distinct, and
      leaves an object without `k` as it is. */
  lemma {:induction false} DeleteShape(fs: Fields, k: string)
    ensures Keys(Delete(fs, k)) == Keys(fs) - {k}
    ensures DistinctKeys(fs) ==> DistinctKeys(Delete(fs, k))
    ensures k !in Keys(fs) ==> Delete(fs, k) == fs
    decreases |fs|
  {
    if |fs| > 0 {
      var rest := Delete(fs[1..], k);
      DeleteShape(fs[1..], k);
      KeysCons(fs);
      assert DistinctKeys(fs) ==> DistinctKeys(fs[1..]);
      if fs[0].0 != k {
        var r := [fs[0]] + rest;
        assert Delete(fs, k) == r;
        KeysCons(r);
        assert r[1..] == rest;
        if DistinctKeys(fs) {
          forall j | 1 <= j < |r| ensures r[0].0 != r[j].0 {
            assert r[j].0 in Keys(rest);
            assert r[j].0 in Keys(fs[1..]);
            var m :| 0 <= m < |fs[1..]| && fs[1..][m].0 == r[j].0;
            assert fs[m + 1].0 == r[j].0;
          }
          DistinctCons(r);
        }
        if k !in Keys(fs) {
          assert fs == [fs[0]] + fs[1..];
        }
      }
    }
  }

  /** The member names of a non-empty object split at its head. */
  lemma KeysCons(fs: Fields)
    requires |fs| > 0
    ensures Keys(fs) == {fs[0].0} + Keys(fs[1..])
  {
    forall x | x in Keys(fs) ensures x in {fs[0].0} + Keys(fs[1..]) {
      var i :| 0 <= i < |fs| && fs[i].0 == x;
      if i > 0 { assert fs[1..][i - 1].0 == x; }
    }
    forall x | x in Keys(fs[1..]) ensures x in Keys(fs) {
      var i :| 0 <= i < |fs[1..]| && fs[1..][i].0 == x;
      assert fs[i + 1].0 == x;
    }
  }

  /** Distinctness of a list from that of its tail and a fresh head. */
  lemma DistinctCons(fs: Fields)
    requires |fs| > 0
    requires DistinctKeys(fs[1..])
    requires forall j :: 1 <= j < |fs| ==> fs[0].0 != fs[j].0
    ensures DistinctKeys(fs)
  {
    forall i, j | 0 <= i < j < |fs| ensures fs[i].0 != fs[j].0 {
      if i > 0 { assert fs[1..][i - 1] == fs[i] && fs[1..][j - 1] == fs[j]; }
    }
  }

  /** A list of distinct names splits at its head into a fresh name and a
      distinct rest. */
  lemma DistinctHead(fs: Fields)
    requires |fs| > 0 && DistinctKeys(fs)
    ensures DistinctKeys(fs[1..]) && fs[0].0 !in Keys(fs[1..])
    ensures Keys(fs) == {fs[0].0} + Keys(fs[1..])
  {
    KeysCons(fs);
    forall m | 0 <= m < |fs[1..]| ensures fs[1..][m].0 != fs[0].0 {
      assert fs[1..][m] == fs[m + 1];
    }
  }

  /** A list of distinct names splits at its end into a distinct front and a
      fresh last name. */
  lemma DistinctLast(fs: Fields)
    requires |fs| > 0 && DistinctKeys(fs)
    ensures var init := fs[..|fs| - 1];
      var last := fs[|fs| - 1];
      && fs == init + [last]
      && DistinctKeys(init) && last.0 !in Keys(init)
      && Keys(fs) == Keys(init) + {last.0}
      && Get(fs, last.0) == Some(last.1)
      && forall k :: k != last.0 ==> Get(fs, k) == Get(init, k)
  {
    var init := fs[..|fs| - 1];
    var last := fs[|fs| - 1];
    assert fs == init + [last];
    forall m | 0 <= m < |init| ensures init[m].0 != last.0 {
      assert init[m] == fs[m];
    }
    KeysAppend(init, last.0, last.1);
    AppendGet(init, last.0, last.1);
  }

  /** `Object.assign(target, source)` for a source given by its own members:
      each source member is written onto the target in order. */
  function Assign(target: Fields, source: Fields): Fields
    decreases |source|
  {
    if |source| == 0 then target
    else Assign(Set(target, source[0].0, source[0].1), source[1..])
  }

  /** `Object.assign` gives the union of the names, reads each source member
      over the target's, and keeps the names distinct. */
  lemma {:induction false} AssignContents(target: Fields, source: Fields)
    ensures Keys(Assign(target, source)) == Keys(target) + Keys(source)
    ensures DistinctKeys(source) ==>
      forall k :: Get(Assign(target, source), k) == if k in Keys(source) then Get(source, k) else Get(target, k)
    ensures DistinctKeys(target) ==> DistinctKeys(Assign(target, source))
    decreases |source|
  {
    if |source| > 0 {
      var t := Set(target, source[0].0, source[0].1);
      AssignContents(t, source[1..]);
      SetShape(target, source[0].0, source[0].1);
      KeysCons(source);
      if DistinctKeys(source) {
        DistinctHead(source);
      }
    }
  }

  // ---------------------------------------------------------------------------
  // Strings

  /** `sub` occurs in `s` at position `i`. */
  predicate OccursAt(s: string, sub: string, i: nat) {
    i + |sub| <= |s| && s[i..i + |sub|] == sub
  }

  // ---------------------------------------------------------------------------
  // Array indices as property names

  /** The decimal spelling of an array index, as JavaScript names it. */
  function IndexKey(i: nat): (s: string)
    ensures |s| > 0
    ensures AllDigits(s)
    ensures s[0] == '0' <==> i == 0
    decreases i
  {
    if i < 10 then [('0' as int + i) as char]
    else IndexKey(i / 10) + [('0' as int + i % 10) as char]
  }

  /** Every character is a decimal digit. */
  predicate AllDigits(s: string) {
    forall i :: 0 <= i < |s| ==> '0' <= s[i] <= '9'
  }

  /** A canonical array index: decimal digits without a leading zero. */
  predicate IsCanonicalIndex(s: string) {
    && |s| > 0
    && AllDigits(s)
    && (s[0] == '0' ==> |s| == 1)
  }

  /** The value of a string of decimal digits. */
  function DigitsValue(s: string): nat
    requires AllDigits(s)
    decreases |s|
  {
    if |s| == 0 then 0
    else
      DigitsValue(s[..|s| - 1]) * 10 + (s[|s| - 1] as int - '0' as int)
  }

  /** The array index a property name denotes, if any. */
  function ParseIndex(s: string): (r: Option<nat>)
    ensures r.Some? <==> IsCanonicalIndex(s)
  {
    if IsCanonicalIndex(s) then Some(DigitsValue(s)) else None
  }

  /** Index names read back as the index they spell. */
  lemma {:induction false} IndexKeyRoundTrip(i: nat)
    ensures ParseIndex(IndexKey(i)) == Some(i)
    decreases i
  {
    var s := IndexKey(i);
    assert IsCanonicalIndex(s);
    if i < 10 {
      assert s[..|s| - 1] == [];
      assert DigitsValue(s) == i;
    } else {
      IndexKeyRoundTrip(i / 10);
      var p := IndexKey(i / 10);
      assert s[..|s| - 1] == p;
      assert DigitsValue(p) == i / 10;
      assert DigitsValue(s) == (i / 10) * 10 + i % 10;
    }
  }

  /** Distinct indices have distinct names. */
  lemma IndexKeyInjective(i: nat, j: nat)
    requires IndexKey(i) == IndexKey(j)
    ensures i == j
  {
    IndexKeyRoundTrip(i);
    IndexKeyRoundTrip(j);
  }

  // ---------------------------------------------------------------------------
  // Property access on arbitrary values

  /** The own enumerable members of a value, in enumeration order: what
      `for (k in v)` visits and what `Object.assign` copies from `v`. Arrays and
      strings enumerate their indices; numbers, booleans and null have none. */
  function OwnEntries(v: Json): (r: Fields)
    ensures v.JObj? ==> r == v.fields
    ensures v.JArr? ==> |r| == |v.items| && forall i :: 0 <= i < |r| ==> r[i] == (IndexKey(i), v.items[i])
    ensures v.JStr? ==> |r| == |v.s| && forall i :: 0 <= i < |r| ==> r[i] == (IndexKey(i), JStr([v.s[i]]))
    ensures !(v.JObj? || v.JArr? || v.JStr?) ==> r == []
  {
    match v
    case JObj(fs) => fs
    case JArr(a) => seq(|a|, i requires 0 <= i < |a| => (IndexKey(i), a[i]))
    case JStr(s) => seq(|s|, i requires 0 <= i < |s| => (IndexKey(i), JStr([s[i]])))
    case _ => []
  }

  /** `v[k]` on a value that is neither null nor undefined: an own member of an
      object, an element or the length of an array or string, else undefined. */
  function Prop(v: Json, k: string): (r: Option<Json>)
    requires v != JNull
    ensures v.JObj? ==> r == Get(v.fields, k)
    ensures (v.JNum? || v.JBool?) ==> r == None
  {
    match v
    case JObj(fs) => Get(fs, k)
    case JArr(a) =>
      if k == "length" then Some(JNum(|a| as real))
      else if ParseIndex(k).Some? && ParseIndex(k).value < |a| then Some(a[ParseIndex(k).value])
      else None
    case JStr(s) =>
      if k == "length" then Some(JNum(|s| as real))
      else if ParseIndex(k).Some? && ParseIndex(k).value < |s| then Some(JStr([s[ParseIndex(k).value]]))
      else None
    case _ => None
  }

  /** What `for (k in v)` enumerates is what `v[k]` reads. */
  lemma OwnEntriesAreProps(v: Json, i: nat)
    requires v != JNull
    requires i < |OwnEntries(v)|
    ensures Prop(v, OwnEntries(v)[i].0) == Some(OwnEntries(v)[i].1) || (v.JObj? && !DistinctKeys(v.fields))
  {
    var e := OwnEntries(v);
    match v
    case JObj(fs) =>
      if DistinctKeys(fs) {
        assert forall j :: 0 <= j < i ==> fs[j].0 != fs[i].0;
      }
    case JArr(a) =>
      IndexKeyRoundTrip(i);
      assert IndexKey(i) != "length" by { assert IndexKey(i)[0] != 'l'; }
    case JStr(s) =>
      IndexKeyRoundTrip(i);
      assert IndexKey(i) != "length" by { assert IndexKey(i)[0] != 'l'; }
  }

  /** `v[k]` where `v` may be null or undefined, which throws. */
  function Member(v: Option<Json>, k: string): (r: Result<Option<Json>, Exception>)
    ensures r.Failure? <==> v == None || v == Some(JNull)
    ensures r.Failure? ==> r.error == TypeError
    ensures r.Success? ==> r.value == Prop(v.value, k)
  {
    if v == None || v == Some(JNull) then Failure(TypeError) else Success(Prop(v.value, k))
  }
}
