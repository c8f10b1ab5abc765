/** The values a YAML load hands to the server, seen through the two
    JavaScript operations the server applies to them: `typeof` and
    `Object.prototype.hasOwnProperty`. The YAML grammar itself belongs to the
    parser and is not modelled; a load is an abstract `ParseOutcome`. */
module YamlValue {
  import opened Wrappers

  /** A JavaScript value produced by loading YAML with the default schema. */
  datatype Value =
    | Str(s: string)
    | Num                            // a number; its value is never inspected
    | Bool(b: bool)
    | Null
    | Undefined                      // what loading an empty document gives
    | Timestamp                      // a Date, from a `!!timestamp` scalar
    | Binary(bytes: seq<bv8>)        // a Uint8Array, from a `!!binary` scalar
    | Seq(items: seq<Value>)         // an Array
    | Map(entries: map<string, Value>) // a plain object

  /** The result of loading a text: a value, or the exception the parser
      threw, with the line and column of its `mark` when it has them. */
  datatype ParseOutcome =
    | Loaded(root: Value)
    | ParseError(message: string, line: Option<nat>, column: Option<nat>)

  /** The result of the JavaScript `typeof` operator. */
  datatype JsType = JsString | JsNumber | JsBoolean | JsUndefined | JsObject

  function TypeOf(v: Value): (t: JsType)
    ensures t == JsString <==> v.Str?
    ensures t == JsUndefined <==> v.Undefined?
    ensures t == JsObject <==> (v.Null? || v.Timestamp? || v.Binary? || v.Seq? || v.Map?)
  {
    match v
    case Str(_) => JsString
    case Num => JsNumber
    case Bool(_) => JsBoolean
    case Undefined => JsUndefined
    case _ => JsObject
  }

  /** `typeof v === "object" && v !== null`. */
  predicate IsNonNullObject(v: Value) {
    TypeOf(v) == JsObject && v != Null
  }

  predicate IsDigit(c: char) {
    '0' <= c <= '9'
  }

  function DecimalValue(key: string): (n: nat)
    requires forall i :: 0 <= i < |key| ==> IsDigit(key[i])
  {
    if |key| == 0 then 0
    else
      var last := key[|key| - 1];
      assert IsDigit(last);
      DecimalValue(key[..|key| - 1]) * 10 + (last as int - '0' as int)
  }

  /** `key` is the canonical decimal name of an index below `n`, the only
      kind of own property an array or typed array has besides `length`. */
  predicate IsArrayIndex(key: string, n: nat) {
    && |key| > 0
    && (forall i :: 0 <= i < |key| ==> IsDigit(key[i]))
    && (key[0] != '0' || |key| == 1)
    && DecimalValue(key) < n
  }

  /** `Object.prototype.hasOwnProperty.call(v, key)` for the objects a load
      produces; a Date has no own properties, and `length` is an own property
      of an Array but an inherited accessor of a Uint8Array. Never asked of a
      primitive, for which it answers false here. */
  predicate HasOwnProperty(v: Value, key: string) {
    match v
    case Map(entries) => key in entries
    case Seq(items) => key == "length" || IsArrayIndex(key, |items|)
    case Binary(bytes) => IsArrayIndex(key, |bytes|)
    case _ => false
  }

  /** `v[key]` for an own property of `v`. */
  function GetProperty(v: Value, key: string): (r: Value)
    requires HasOwnProperty(v, key)
  {
    match v
    case Map(entries) => entries[key]
    case Seq(items) => if key == "length" then Num else items[DecimalValue(key)]
    case Binary(_) => Num
  }

  /** A key other than `length` that does not start with a digit is never an
      own property of an array or a typed array: such a root lacks every such
      required key, `servername` among them. */
  lemma LetterKeyNotOwnedBySeq(items: seq<Value>, bytes: seq<bv8>, key: string)
    requires |key| > 0 && !IsDigit(key[0]) && key != "length"
    ensures !HasOwnProperty(Seq(items), key)
    ensures !HasOwnProperty(Binary(bytes), key)
  {
  }
}
