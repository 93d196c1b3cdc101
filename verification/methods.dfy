/** Which keys of a path item `parse` treats as HTTP methods. The test is the
    regular expression `/^get|delete|head|options|post|put|patch$/`, in which
    the anchors bind to the first and last alternatives only. */
module Methods {
  import opened JsValues

  /** One element of a regular-expression alternative. */
  datatype Atom = Start | End | Lit(c: char)

  /** The atoms matching the characters of `w` in order. */
  function Lits(w: string): (b: seq<Atom>)
    ensures |b| == |w| && forall i :: 0 <= i < |w| ==> b[i] == Lit(w[i])
  {
    seq(|w|, i requires 0 <= i < |w| => Lit(w[i]))
  }

  /** The alternatives of the method pattern, in order. */
  function MethodPattern(): seq<seq<Atom>> {
    [[Start] + Lits("get"), Lits("delete"), Lits("head"), Lits("options"),
     Lits("post"), Lits("put"), Lits("patch") + [End]]
  }

  /** The alternative `b` matches `s` starting at position `i`. */
  predicate MatchAt(b: seq<Atom>, s: string, i: nat)
    requires i <= |s|
    decreases |b|
  {
    if |b| == 0 then true
    else
      match b[0]
      case Start => i == 0 && MatchAt(b[1..], s, i)
      case End => i == |s| && MatchAt(b[1..], s, i)
      case Lit(c) => i < |s| && s[i] == c && MatchAt(b[1..], s, i + 1)
  }

  /** The alternative `b` matches `s` at some position. */
  predicate MatchesSomewhere(b: seq<Atom>, s: string) {
    exists i :: 0 <= i <= |s| && MatchAt(b, s, i)
  }

  /** `RegExp.prototype.test`: some alternative matches at some position. */
  predicate Test(pattern: seq<seq<Atom>>, s: string) {
    exists j :: 0 <= j < |pattern| && MatchesSomewhere(pattern[j], s)
  }

  /** `sub` occurs somewhere in `s`. */
  predicate Contains(s: string, sub: string) {
    exists i :: 0 <= i <= |s| && OccursAt(s, sub, i)
  }

  /** The method test at src/index.js:72, read off the pattern: the key starts
      with `get`, contains `delete`, `head`, `options`, `post` or `put`, or ends
      with `patch`. */
  predicate IsMethod(k: string) {
    || OccursAt(k, "get", 0)
    || Contains(k, "delete") || Contains(k, "head") || Contains(k, "options")
    || Contains(k, "post") || Contains(k, "put")
    || (|k| >= 5 && OccursAt(k, "patch", |k| - 5))
  }

  /** A run of literals matches exactly where its word occurs. */
  lemma {:induction false} LitsMatch(w: string, tail: seq<Atom>, s: string, i: nat)
    requires i <= |s|
    ensures MatchAt(Lits(w) + tail, s, i) <==> OccursAt(s, w, i) && MatchAt(tail, s, i + |w|)
    decreases |w|
  {
    if |w| > 0 {
      var b := Lits(w) + tail;
      assert b[0] == Lit(w[0]);
      assert b[1..] == Lits(w[1..]) + tail;
      if i < |s| {
        LitsMatch(w[1..], tail, s, i + 1);
        if OccursAt(s, w, i) {
          assert s[i + 1..i + 1 + |w[1..]|] == s[i..i + |w|][1..];
        }
        if s[i] == w[0] && OccursAt(s, w[1..], i + 1) {
          assert s[i..i + |w|] == [s[i]] + s[i + 1..i + 1 + |w[1..]|];
        }
      }
    } else {
      assert Lits(w) + tail == tail;
      assert s[i..i] == w;
    }
  }

  /** A literal-only alternative matches at `i` exactly where its word occurs. */
  lemma WordMatch(w: string, s: string, i: nat)
    requires i <= |s|
    ensures MatchAt(Lits(w), s, i) <==> OccursAt(s, w, i)
  {
    LitsMatch(w, [], s, i);
    assert Lits(w) + [] == Lits(w);
  }

  /** A literal-only alternative matches exactly where its word occurs. */
  lemma WordAlternative(w: string, s: string)
    ensures MatchesSomewhere(Lits(w), s) <==> Contains(s, w)
  {
    forall i | 0 <= i <= |s| ensures MatchAt(Lits(w), s, i) <==> OccursAt(s, w, i) {
      WordMatch(w, s, i);
    }
  }

  /** The pattern's first alternative: `get` at the start. */
  lemma FirstAlternative(s: string)
    ensures MatchesSomewhere([Start] + Lits("get"), s) <==> OccursAt(s, "get", 0)
  {
    var b := [Start] + Lits("get");
    assert b[1..] == Lits("get");
    forall i | 0 <= i <= |s| ensures MatchAt(b, s, i) <==> i == 0 && OccursAt(s, "get", 0) {
      WordMatch("get", s, i);
    }
    if OccursAt(s, "get", 0) {
      assert MatchAt(b, s, 0);
    }
  }

  /** The pattern's last alternative: `patch` at the end. */
  lemma LastAlternative(s: string)
    ensures MatchesSomewhere(Lits("patch") + [End], s) <==> |s| >= 5 && OccursAt(s, "patch", |s| - 5)
  {
    var b := Lits("patch") + [End];
    forall i | 0 <= i <= |s| ensures MatchAt(b, s, i) <==> OccursAt(s, "patch", i) && i + 5 == |s| {
      LitsMatch("patch", [End], s, i);
      if i + 5 <= |s| {
        assert [End][1..] == [];
      }
    }
    if |s| >= 5 && OccursAt(s, "patch", |s| - 5) {
      assert MatchAt(b, s, |s| - 5);
    }
  }

  /** `IsMethod` is exactly what the regular expression accepts. */
  lemma IsMethodMatchesPattern(k: string)
    ensures Test(MethodPattern(), k) <==> IsMethod(k)
  {
    var p := MethodPattern();
    FirstAlternative(k);
    WordAlternative("delete", k);
    WordAlternative("head", k);
    WordAlternative("options", k);
    WordAlternative("post", k);
    WordAlternative("put", k);
    LastAlternative(k);
    if Test(p, k) {
      var j :| 0 <= j < |p| && MatchesSomewhere(p[j], k);
      assert j == 0 || j == 1 || j == 2 || j == 3 || j == 4 || j == 5 || j == 6;
    }
    if IsMethod(k) {
      if OccursAt(k, "get", 0) {
        assert MatchesSomewhere(p[0], k);
      } else if Contains(k, "delete") {
        assert MatchesSomewhere(p[1], k);
      } else if Contains(k, "head") {
        assert MatchesSomewhere(p[2], k);
      } else if Contains(k, "options") {
        assert MatchesSomewhere(p[3], k);
      } else if Contains(k, "post") {
        assert MatchesSomewhere(p[4], k);
      } else if Contains(k, "put") {
        assert MatchesSomewhere(p[5], k);
      } else {
        assert MatchesSomewhere(p[6], k);
      }
    }
  }

  /** A word with a character the key lacks does not occur in it. */
  lemma MissingChar(s: string, sub: string, c: char)
    requires c in sub && c !in s
    ensures !Contains(s, sub)
  {
    var j :| 0 <= j < |sub| && sub[j] == c;
    forall i | 0 <= i <= |s| ensures !OccursAt(s, sub, i) {
      if i + |sub| <= |s| {
        assert s[i..i + |sub|][j] == s[i + j];
        assert s[i + j] in s;
      }
    }
  }

  /** Consequences of the anchoring: a key starting with `get`, or containing
      `put` anywhere, such as `input`, counts as a method. */
  lemma LooseMatches()
    ensures IsMethod("get") && IsMethod("getUsers") && IsMethod("input")
  {
    assert "get"[0..3] == "get";
    assert "getUsers"[0..3] == "get";
    assert OccursAt("input", "put", 2) by { assert "input"[2..5] == "put"; }
  }

  /** The shared `parameters` key of a path item is not a method. */
  lemma ParametersIsNotMethod()
    ensures !IsMethod("parameters")
  {
    var k := "parameters";
    assert k[0] != "get"[0];
    assert k[5..10][0] != "patch"[0];
    MissingChar(k, "delete", 'd');
    MissingChar(k, "head", 'h');
    MissingChar(k, "options", 'o');
    MissingChar(k, "post", 'o');
    MissingChar(k, "put", 'u');
  }

  /** The shared `responses` key of a path item is not a method. */
  lemma ResponsesIsNotMethod()
    ensures !IsMethod("responses")
  {
    var k := "responses";
    assert k[0] != "get"[0];
    assert k[4..9][0] != "patch"[0];
    MissingChar(k, "delete", 'd');
    MissingChar(k, "head", 'h');
    MissingChar(k, "options", 't');
    MissingChar(k, "post", 't');
    MissingChar(k, "put", 'u');
  }

  /** `patch` is anchored at the end, so `patches` is not a method. */
  lemma PatchesIsNotMethod()
    ensures !IsMethod("patches")
  {
    var k := "patches";
    assert k[0] != "get"[0];
    assert k[2..7][0] != "patch"[0];
    MissingChar(k, "delete", 'd');
    MissingChar(k, "head", 'd');
    MissingChar(k, "options", 'o');
    MissingChar(k, "post", 'o');
    MissingChar(k, "put", 'u');
  }
}
