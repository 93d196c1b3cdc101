/** `JSON.stringify` at the level of tokens, and a reader that undoes it.
    Equality of serialized forms, which `compare` tests, is therefore exactly
    equality of values, member order included. */
module Serialize {
  import opened Wrappers
  import opened JsValues

  /** The lexical tokens of JSON text. A string token stands for its quoted,
      escaped spelling and a number token for its shortest decimal spelling. */
  datatype Token =
    | LBrace | RBrace | LBracket | RBracket | Comma | Colon
    | NullTok | TrueTok | FalseTok
    | NumTok(n: real)
    | StrTok(s: string)

  /** `JSON.stringify(v)` for a defined value, as a token sequence. */
  function Stringify(v: Json): (ts: seq<Token>)
    ensures |ts| > 0 && ts[0] != RBracket && ts[0] != RBrace && ts[0] != Comma
    decreases v, 1
  {
    match v
    case JNull => [NullTok]
    case JBool(b) => if b then [TrueTok] else [FalseTok]
    case JNum(n) => [NumTok(n)]
    case JStr(s) => [StrTok(s)]
    case JArr(a) => [LBracket] + Elements(a) + [RBracket]
    case JObj(fs) => [LBrace] + Members(fs) + [RBrace]
  }

  /** The elements of an array, separated by commas. */
  function Elements(a: seq<Json>): seq<Token>
    decreases a, 0
  {
    if |a| == 0 then [] else Stringify(a[0]) + MoreElements(a[1..])
  }

  /** The elements after the first, each preceded by a comma. */
  function MoreElements(a: seq<Json>): seq<Token>
    decreases a, 0
  {
    if |a| == 0 then [] else [Comma] + Stringify(a[0]) + MoreElements(a[1..])
  }

  /** The members of an object as `"name":value`, separated by commas. */
  function Members(fs: Fields): seq<Token>
    decreases fs, 0
  {
    if |fs| == 0 then [] else MemberTokens(fs[0]) + MoreMembers(fs[1..])
  }

  /** The members after the first, each preceded by a comma. */
  function MoreMembers(fs: Fields): seq<Token>
    decreases fs, 0
  {
    if |fs| == 0 then [] else [Comma] + MemberTokens(fs[0]) + MoreMembers(fs[1..])
  }

  /** One member `"name":value`. */
  function MemberTokens(m: (string, Json)): seq<Token>
    decreases m, 0
  {
    [StrTok(m.0), Colon] + Stringify(m.1)
  }

  /** `JSON.stringify(v)` where `undefined` serializes to `undefined`. */
  function StringifyOpt(v: Option<Json>): Option<seq<Token>> {
    if v.None? then None else Some(Stringify(v.value))
  }

  // ---------------------------------------------------------------------------
  // Reading tokens back

  /** Reads one value from the front of `ts`, returning it with the tokens
      that follow. */
  function Read(ts: seq<Token>): (r: Option<(Json, seq<Token>)>)
    ensures r.Some? ==> |r.value.1| < |ts|
    decreases |ts|, 1
  {
    if |ts| == 0 then None
    else
      match ts[0]
      case NullTok => Some((JNull, ts[1..]))
      case TrueTok => Some((JBool(true), ts[1..]))
      case FalseTok => Some((JBool(false), ts[1..]))
      case NumTok(n) => Some((JNum(n), ts[1..]))
      case StrTok(s) => Some((JStr(s), ts[1..]))
      case LBracket =>
        if |ts| > 1 && ts[1] == RBracket then Some((JArr([]), ts[2..]))
        else
          (match ReadElements(ts[1..])
           case None => None
           case Some((a, rest)) => Some((JArr(a), rest)))
      case LBrace =>
        if |ts| > 1 && ts[1] == RBrace then Some((JObj([]), ts[2..]))
        else
          (match ReadMembers(ts[1..])
           case None => None
           case Some((fs, rest)) => Some((JObj(fs), rest)))
      case _ => None
  }

  /** Reads `value (, value)* ]`. */
  function ReadElements(ts: seq<Token>): (r: Option<(seq<Json>, seq<Token>)>)
    ensures r.Some? ==> |r.value.1| < |ts|
    decreases |ts|, 2
  {
    match Read(ts)
    case None => None
    case Some((v, rest)) =>
      if |rest| > 0 && rest[0] == RBracket then Some(([v], rest[1..]))
      else if |rest| > 0 && rest[0] == Comma then
        match ReadElements(rest[1..])
        case None => None
        case Some((vs, rest')) => Some(([v] + vs, rest'))
      else None
  }

  /** Reads `"name":value (, "name":value)* }`. */
  function ReadMembers(ts: seq<Token>): (r: Option<(Fields, seq<Token>)>)
    ensures r.Some? ==> |r.value.1| < |ts|
    decreases |ts|, 2
  {
    if |ts| < 2 || !ts[0].StrTok? || ts[1] != Colon then None
    else
      match Read(ts[2..])
      case None => None
      case Some((v, rest)) =>
        if |rest| > 0 && rest[0] == RBrace then Some(([(ts[0].s, v)], rest[1..]))
        else if |rest| > 0 && rest[0] == Comma then
          match ReadMembers(rest[1..])
          case None => None
          case Some((fs, rest')) => Some(([(ts[0].s, v)] + fs, rest'))
        else None
  }

  // ---------------------------------------------------------------------------
  // The round trip

  /** Reading a serialized value gives the value back and stops right after it. */
  lemma {:induction false} ReadStringify(v: Json, rest: seq<Token>)
    ensures Read(Stringify(v) + rest) == Some((v, rest))
    decreases v, 1
  {
    var ts := Stringify(v) + rest;
    match v
    case JNull => assert ts[1..] == rest;
    case JBool(b) => assert ts[1..] == rest;
    case JNum(n) => assert ts[1..] == rest;
    case JStr(s) => assert ts[1..] == rest;
    case JArr(a) =>
      if |a| == 0 {
        assert Elements(a) == [];
        assert ts == [LBracket, RBracket] + rest;
        assert ts[2..] == rest;
      } else {
        var inner := Elements(a) + [RBracket] + rest;
        assert ts == [LBracket] + inner;
        assert ts[1..] == inner;
        ElementsStart(a);
        assert inner[0] == Elements(a)[0];
        ReadElementsRoundTrip(a, rest);
      }
    case JObj(fs) =>
      if |fs| == 0 {
        assert Members(fs) == [];
        assert ts == [LBrace, RBrace] + rest;
        assert ts[2..] == rest;
      } else {
        var inner := Members(fs) + [RBrace] + rest;
        assert ts == [LBrace] + inner;
        assert ts[1..] == inner;
        MembersStart(fs);
        assert inner[0] == StrTok(fs[0].0);
        ReadMembersRoundTrip(fs, rest);
      }
  }

  /** A non-empty element list starts like its first element. */
  lemma ElementsStart(a: seq<Json>)
    requires |a| > 0
    ensures |Elements(a)| > 0 && Elements(a)[0] == Stringify(a[0])[0]
  {
  }

  /** A non-empty member list starts with the first member's name. */
  lemma MembersStart(fs: Fields)
    requires |fs| > 0
    ensures |Members(fs)| > 0 && Members(fs)[0] == StrTok(fs[0].0)
  {
  }

  /** After the first element, the rest is a comma and the remaining elements. */
  lemma MoreElementsIsComma(a: seq<Json>)
    requires |a| > 0
    ensures MoreElements(a) == [Comma] + Elements(a)
  {
  }

  /** After the first member, the rest is a comma and the remaining members. */
  lemma MoreMembersIsComma(fs: Fields)
    requires |fs| > 0
    ensures MoreMembers(fs) == [Comma] + Members(fs)
  {
  }

  /** The last element of a list is followed by the closing bracket. */
  lemma ReadLastElement(v: Json, rest: seq<Token>)
    ensures ReadElements(Stringify(v) + ([RBracket] + rest)) == Some(([v], rest))
    decreases v, 2
  {
    ReadStringify(v, [RBracket] + rest);
    assert ([RBracket] + rest)[1..] == rest;
  }

  /** An element followed by a comma is followed by more elements. */
  lemma ReadNextElement(v: Json, more: seq<Token>, vs: seq<Json>, rest: seq<Token>)
    requires ReadElements(more) == Some((vs, rest))
    ensures ReadElements(Stringify(v) + ([Comma] + more)) == Some(([v] + vs, rest))
    decreases v, 2
  {
    ReadStringify(v, [Comma] + more);
    assert ([Comma] + more)[1..] == more;
  }

  /** The elements of a non-empty array read back, up to the closing bracket. */
  lemma {:induction false} ReadElementsRoundTrip(a: seq<Json>, rest: seq<Token>)
    requires |a| > 0
    ensures ReadElements(Elements(a) + [RBracket] + rest) == Some((a, rest))
    decreases a, 0
  {
    if |a| == 1 {
      assert Elements(a) + [RBracket] + rest == Stringify(a[0]) + ([RBracket] + rest);
      ReadLastElement(a[0], rest);
      assert a == [a[0]];
    } else {
      var more := Elements(a[1..]) + [RBracket] + rest;
      MoreElementsIsComma(a[1..]);
      assert Elements(a) + [RBracket] + rest == Stringify(a[0]) + ([Comma] + more);
      ReadElementsRoundTrip(a[1..], rest);
      ReadNextElement(a[0], more, a[1..], rest);
      assert [a[0]] + a[1..] == a;
    }
  }

  /** The last member of an object is followed by the closing brace. */
  lemma ReadLastMember(m: (string, Json), rest: seq<Token>)
    ensures ReadMembers(MemberTokens(m) + ([RBrace] + rest)) == Some(([m], rest))
    decreases m, 2
  {
    var ts := MemberTokens(m) + ([RBrace] + rest);
    assert ts[2..] == Stringify(m.1) + ([RBrace] + rest);
    ReadStringify(m.1, [RBrace] + rest);
    assert ([RBrace] + rest)[1..] == rest;
  }

  /** A member followed by a comma is followed by more members. */
  lemma ReadNextMember(m: (string, Json), more: seq<Token>, fs: Fields, rest: seq<Token>)
    requires ReadMembers(more) == Some((fs, rest))
    ensures ReadMembers(MemberTokens(m) + ([Comma] + more)) == Some(([m] + fs, rest))
    decreases m, 2
  {
    var ts := MemberTokens(m) + ([Comma] + more);
    assert ts[2..] == Stringify(m.1) + ([Comma] + more);
    ReadStringify(m.1, [Comma] + more);
    assert ([Comma] + more)[1..] == more;
  }

  /** The members of a non-empty object read back, up to the closing brace. */
  lemma {:induction false} ReadMembersRoundTrip(fs: Fields, rest: seq<Token>)
    requires |fs| > 0
    ensures ReadMembers(Members(fs) + [RBrace] + rest) == Some((fs, rest))
    decreases fs, 0
  {
    if |fs| == 1 {
      assert Members(fs) + [RBrace] + rest == MemberTokens(fs[0]) + ([RBrace] + rest);
      ReadLastMember(fs[0], rest);
      assert fs == [fs[0]];
    } else {
      var more := Members(fs[1..]) + [RBrace] + rest;
      MoreMembersIsComma(fs[1..]);
      assert Members(fs) + [RBrace] + rest == MemberTokens(fs[0]) + ([Comma] + more);
      ReadMembersRoundTrip(fs[1..], rest);
      ReadNextMember(fs[0], more, fs[1..], rest);
      assert [fs[0]] + fs[1..] == fs;
    }
  }

  /** Serialization is injective: equal serialized forms come from equal
      values, member order included. */
  lemma StringifyInjective(v: Json, w: Json)
    ensures Stringify(v) == Stringify(w) <==> v == w
  {
    if Stringify(v) == Stringify(w) {
      ReadStringify(v, []);
      ReadStringify(w, []);
      assert Stringify(v) + [] == Stringify(v);
      assert Stringify(w) + [] == Stringify(w);
    }
  }

  /** The same for possibly undefined values. */
  lemma StringifyOptInjective(v: Option<Json>, w: Option<Json>)
    ensures StringifyOpt(v) == StringifyOpt(w) <==> v == w
  {
    if v.Some? && w.Some? {
      StringifyInjective(v.value, w.value);
    }
  }
}
