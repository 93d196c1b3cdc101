/** The value classifier: `getType` names the kind of a value with one of the
    `dataTypes` tags, telling arrays and plain objects apart by their class
    rather than by `typeof`; `isType` compares against a tag. */
module Utils {
  import opened Wrappers
  import opened JsValues

  /** The tags of `dataTypes`. */
  const DataTypes: set<string> :=
    {"string", "number", "boolean", "null", "undefined", "array", "date", "error",
     "function", "math", "object", "regexp", "promise", "symbol", "buffer"}

  /** `typeof v`: null, arrays and plain objects all read as "object". */
  function TypeOf(v: Option<Json>): string {
    match v
    case None => "undefined"
    case Some(JBool(_)) => "boolean"
    case Some(JNum(_)) => "number"
    case Some(JStr(_)) => "string"
    case Some(_) => "object"
  }

  /** The class name `Object.prototype.toString` reports as `[object Name]`. */
  function ClassName(v: Json): string {
    match v
    case JNull => "Null"
    case JBool(_) => "Boolean"
    case JNum(_) => "Number"
    case JStr(_) => "String"
    case JArr(_) => "Array"
    case JObj(_) => "Object"
  }

  /** ASCII lower-casing, as `toLowerCase` does on class names. */
  function Lower(s: string): (r: string)
    ensures |r| == |s|
  {
    seq(|s|, i requires 0 <= i < |s| => if 'A' <= s[i] <= 'Z' then (s[i] as int + 32) as char else s[i])
  }

  /** `getType(v)`: "null" for null, the `typeof` tag for primitives, and the
      lower-cased class name for anything `typeof` calls an object. */
  function GetType(v: Option<Json>): (t: string)
    ensures t in DataTypes
    ensures t == "undefined" <==> v == None
    ensures t == "null" <==> v == Some(JNull)
    ensures t == "boolean" <==> v.Some? && v.value.JBool?
    ensures t == "number" <==> v.Some? && v.value.JNum?
    ensures t == "string" <==> v.Some? && v.value.JStr?
    ensures t == "array" <==> v.Some? && v.value.JArr?
    ensures t == "object" <==> v.Some? && v.value.JObj?
  {
    var t := if v == Some(JNull) then "null" else TypeOf(v);
    if t == "object" then
      assert Lower("Array") == "array";
      assert Lower("Object") == "object";
      Lower(ClassName(v.value))
    else t
  }

  /** `isType(v, t)`: whether `v` is of kind `t`. */
  function IsType(v: Option<Json>, t: string): (r: bool)
    ensures t !in DataTypes ==> !r
    ensures t == "object" ==> (r <==> v.Some? && v.value.JObj?)
    ensures t == "array" ==> (r <==> v.Some? && v.value.JArr?)
    ensures t == "string" ==> (r <==> v.Some? && v.value.JStr?)
  {
    GetType(v) == t
  }
}
