/** The pointer resolver `getRef`: a pointer `#/<section>/<name>` is looked up
    as `spec[section][name]` in the resolved document; an inline (non-string)
    target is handed back as an equal copy, and every failing lookup yields null. */
module Pointers {
  import opened Wrappers
  import opened JsValues
  import opened Utils

  /** The pieces of `parts` glued back together with `sep`. */
  function Join(parts: seq<string>, sep: char): string
    requires |parts| >= 1
  {
    if |parts| == 1 then parts[0] else parts[0] + [sep] + Join(parts[1..], sep)
  }

  /** `s.split(sep)`: the maximal `sep`-free pieces of `s`, in order. */
  function Split(s: string, sep: char): (parts: seq<string>)
    ensures |parts| >= 1
    ensures forall i :: 0 <= i < |parts| ==> sep !in parts[i]
    ensures Join(parts, sep) == s
    decreases |s|
  {
    if |s| == 0 then [""]
    else
      var rest := Split(s[1..], sep);
      if s[0] == sep then
        assert Join([""] + rest, sep) == [sep] + Join(rest, sep) by {
          assert ([""] + rest)[1..] == rest;
        }
        [""] + rest
      else
        var parts := [[s[0]] + rest[0]] + rest[1..];
        assert Join(parts, sep) == [s[0]] + Join(rest, sep) by {
          if |rest| > 1 {
            assert parts[1..] == rest[1..];
          }
        }
        parts
  }

  /** Splitting undoes joining: `split` recovers the pieces of any `sep`-free
      list exactly. */
  lemma {:induction false} SplitJoin(parts: seq<string>, sep: char)
    requires |parts| >= 1
    requires forall i :: 0 <= i < |parts| ==> sep !in parts[i]
    ensures Split(Join(parts, sep), sep) == parts
    decreases parts
  {
    if |parts| == 1 {
      SplitNoSeparator(parts[0], sep);
    } else {
      SplitJoin(parts[1..], sep);
      SplitAtSeparator(parts[0], Join(parts[1..], sep), sep);
      SplitNoSeparator(parts[0], sep);
    }
  }

  /** A string without separators splits into itself. */
  lemma {:induction false} SplitNoSeparator(s: string, sep: char)
    requires sep !in s
    ensures Split(s, sep) == [s]
    decreases |s|
  {
    if |s| > 0 {
      assert sep !in s[1..];
      SplitNoSeparator(s[1..], sep);
    }
  }

  /** Splitting distributes over a separator. */
  lemma {:induction false} SplitAtSeparator(x: string, y: string, sep: char)
    requires sep !in x
    ensures Split(x + [sep] + y, sep) == Split(x, sep) + Split(y, sep)
    decreases |x|
  {
    var s := x + [sep] + y;
    if |x| == 0 {
      assert s[1..] == y;
    } else {
      assert s[1..] == x[1..] + [sep] + y;
      assert sep !in x[1..];
      SplitAtSeparator(x[1..], y, sep);
      SplitNoSeparator(x, sep);
      SplitNoSeparator(x[1..], sep);
    }
  }

  /** `refs[i]`, where an index past the end reads as `undefined`, which as a
      property name is the string "undefined". */
  function Segment(parts: seq<string>, i: nat): string {
    if i < |parts| then parts[i] else "undefined"
  }

  /** `getRef(ref)` against the resolved document `spec`. The result `None`
      (undefined) only passes through; a lookup that throws or finds nothing
      yields null. */
  function GetRef(spec: Option<Json>, ref: Option<Json>): (r: Option<Json>)
    ensures !Truthy(ref) ==> r == ref
    ensures Truthy(ref) && !ref.value.JStr? ==> r == ref
    ensures Truthy(ref) ==> r.Some?
    ensures Truthy(ref) && ref.value.JStr? && r != Some(JNull) ==>
      var parts := Split(ref.value.s, '/');
      && Member(spec, Segment(parts, 1)).Success?
      && Member(Member(spec, Segment(parts, 1)).value, Segment(parts, 2)) == Success(r)
  {
    if !Truthy(ref) then ref
    else if !ref.value.JStr? then ref  // isType(ref, "string")
    else
      var parts := Split(ref.value.s, '/');
      match Member(spec, Segment(parts, 1))
      case Failure(_) => Some(JNull)
      case Success(section) =>
        match Member(section, Segment(parts, 2))
        case Failure(_) => Some(JNull)
        case Success(target) => if target.None? then Some(JNull) else target
  }

  /** The pointer string `#/<section>/<name>`. */
  function Pointer(section: string, name: string): string {
    "#/" + section + "/" + name
  }

  /** A pointer whose section is an object of the document holding `name`
      resolves to that member. */
  lemma GetRefFinds(spec: Json, section: string, name: string, target: Json)
    requires '/' !in section && '/' !in name
    requires spec.JObj? && Get(spec.fields, section).Some? && Get(spec.fields, section).value.JObj?
    requires Get(Get(spec.fields, section).value.fields, name) == Some(target)
    ensures GetRef(Some(spec), Some(JStr(Pointer(section, name)))) == Some(target)
  {
    SameSegmentsSameTarget(Some(spec), "#", section, name, "");
    assert Member(Some(spec), section) == Success(Get(spec.fields, section));
  }

  /** A pointer whose section is an object of the document lacking `name`
      resolves to null, and so does one whose section is missing. */
  lemma GetRefMisses(spec: Json, section: string, name: string)
    requires '/' !in section && '/' !in name
    requires spec.JObj?
    requires Get(spec.fields, section).None? ||
             (Get(spec.fields, section).value.JObj? && Get(Get(spec.fields, section).value.fields, name).None?)
    ensures GetRef(Some(spec), Some(JStr(Pointer(section, name)))) == Some(JNull)
  {
    SameSegmentsSameTarget(Some(spec), "#", section, name, "");
    assert Member(Some(spec), section) == Success(Get(spec.fields, section));
  }

  /** Only the second and third segments matter: the first is never checked
      and anything after the third is ignored. */
  lemma GetRefIgnoresOtherSegments(spec: Option<Json>, first: string, section: string, name: string, tail: string)
    requires '/' !in first && '/' !in section && '/' !in name
    requires tail == [] || tail[0] == '/'
    ensures GetRef(spec, Some(JStr(first + "/" + section + "/" + name + tail)))
         == GetRef(spec, Some(JStr(Pointer(section, name))))
  {
    SameSegmentsSameTarget(spec, first, section, name, tail);
  }

  /** Two pointers with the same second and third segments resolve alike. */
  lemma SameSegmentsSameTarget(spec: Option<Json>, first: string, section: string, name: string, tail: string)
    requires '/' !in first && '/' !in section && '/' !in name
    requires tail == [] || tail[0] == '/'
    ensures GetRef(spec, Some(JStr(first + "/" + section + "/" + name + tail)))
         == GetRef(spec, Some(JStr(Pointer(section, name))))
    ensures GetRef(spec, Some(JStr(Pointer(section, name)))) ==
      match Member(spec, section)
      case Failure(_) => Some(JNull)
      case Success(sec) =>
        match Member(sec, name)
        case Failure(_) => Some(JNull)
        case Success(target) => if target.None? then Some(JNull) else target
  {
    var p := first + "/" + section + "/" + name + tail;
    var q := Pointer(section, name);
    PointerSegments(first, section, name, tail);
    assert q == "#" + "/" + section + "/" + name + "";
    PointerSegments("#", section, name, "");
    assert |p| > 0 && |q| > 0;
    assert Truthy(Some(JStr(p))) && Truthy(Some(JStr(q)));
  }

  /** How a three-segment pointer splits, whatever follows it. */
  lemma PointerSegments(first: string, section: string, name: string, tail: string)
    requires '/' !in first && '/' !in section && '/' !in name
    requires tail == [] || tail[0] == '/'
    ensures var parts := Split(first + "/" + section + "/" + name + tail, '/');
      |parts| >= 3 && parts[0] == first && parts[1] == section && parts[2] == name
  {
    var s := first + "/" + section + "/" + name + tail;
    assert s == first + ['/'] + (section + ['/'] + (name + tail));
    SplitAtSeparator(first, section + ['/'] + (name + tail), '/');
    SplitAtSeparator(section, name + tail, '/');
    SplitNoSeparator(first, '/');
    SplitNoSeparator(section, '/');
    if tail == [] {
      assert name + tail == name;
      SplitNoSeparator(name, '/');
    } else {
      assert name + tail == name + ['/'] + tail[1..];
      SplitAtSeparator(name, tail[1..], '/');
      SplitNoSeparator(name, '/');
    }
  }
}
