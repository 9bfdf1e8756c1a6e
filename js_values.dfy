/** The JavaScript values that flow through the mod manager: parsed JSON,
    header field maps and mod descriptors. Numbers are integers only. */
module JsValues {

  datatype Value =
    | Undefined
    | Null
    | Bool(b: bool)
    | Num(n: int)
    | Str(s: string)
    | Arr(items: seq<Value>)
    | Obj(fields: map<string, Value>)

  /** A plain JavaScript object: a missing key reads as `undefined`. */
  type Object = map<string, Value>

  /** JavaScript truthiness: `undefined`, `null`, `false`, `0` and `""` are falsy. */
  predicate Truthy(v: Value) {
    match v
    case Undefined => false
    case Null => false
    case Bool(b) => b
    case Num(n) => n != 0
    case Str(s) => s != ""
    case Arr(_) => true
    case Obj(_) => true
  }

  /** `null` or `undefined`: reading or setting a property of either throws. */
  predicate Nullish(v: Value) {
    v.Null? || v.Undefined?
  }

  /** `a || b`: the left operand when it is truthy, otherwise the right one. */
  function Or(a: Value, b: Value): Value {
    if Truthy(a) then a else b
  }

  /** `o.key` on a plain object. */
  function Get(o: Object, key: string): Value {
    if key in o then o[key] else Undefined
  }

  /** `v.key` on a value that is not `null` or `undefined` (those throw, see callers). */
  function Prop(v: Value, key: string): Value {
    if v.Obj? then Get(v.fields, key) else Undefined
  }

  /** `v.key = x` on an object; anything else is left as it is. */
  function SetProp(v: Value, key: string, x: Value): (r: Value)
    ensures v.Obj? ==> r.Obj? && r.fields == v.fields[key := x]
    ensures !v.Obj? ==> r == v
  {
    if v.Obj? then Obj(v.fields[key := x]) else v
  }

  /** After `v.key = x` on an object, reading `key` gives `x` and reading
      any other property gives what it gave before; any other value is left
      as it is. */
  lemma SetPropReads(v: Value, key: string, x: Value)
    ensures v.Obj? ==> Prop(SetProp(v, key, x), key) == x
    ensures v.Obj? ==> forall k :: k != key ==> Prop(SetProp(v, key, x), k) == Prop(v, k)
    ensures !v.Obj? ==> SetProp(v, key, x) == v && Prop(SetProp(v, key, x), key) == Undefined
  {
  }

  /** `a === b`. Two parsed objects or arrays are never the same reference, so
      only primitives can be strictly equal. */
  predicate StrictEquals(a: Value, b: Value) {
    a == b && !a.Arr? && !a.Obj?
  }

  /** `!v`, as stored back into a field. */
  function Not(v: Value): Value {
    Bool(!Truthy(v))
  }

  /** A value that survives `JSON.stringify` unchanged: no `undefined`
      anywhere inside it. */
  predicate Serializable(v: Value)
    decreases v
  {
    match v
    case Undefined => false
    case Arr(items) => forall i :: 0 <= i < |items| ==> Serializable(items[i])
    case Obj(fields) => forall k :: k in fields ==> Serializable(fields[k])
    case _ => true
  }

  /** What `JSON.parse(JSON.stringify(v))` gives back for an array or object:
      object keys holding `undefined` are dropped, `undefined` array items
      become `null`. */
  function Jsonify(v: Value): (r: Value)
    decreases v
    ensures v.Arr? ==> r.Arr? && |r.items| == |v.items|
    ensures v.Obj? ==> r.Obj? && r.fields.Keys == set k | k in v.fields && !v.fields[k].Undefined?
  {
    match v
    case Arr(items) =>
      Arr(seq(|items|, i requires 0 <= i < |items| => if items[i].Undefined? then Null else Jsonify(items[i])))
    case Obj(fields) =>
      Obj(map k | k in fields && !fields[k].Undefined? :: Jsonify(fields[k]))
    case _ => v
  }

  /** The round trip leaves nothing `undefined` inside an array or object. */
  lemma {:induction false} JsonifySerializable(v: Value)
    requires !v.Undefined?
    decreases v
    ensures Serializable(Jsonify(v))
  {
    match v
    case Arr(items) =>
      var r := Jsonify(v);
      forall i | 0 <= i < |items| ensures Serializable(r.items[i]) {
        if !items[i].Undefined? { JsonifySerializable(items[i]); }
      }
    case Obj(fields) =>
      var r := Jsonify(v);
      forall k | k in r.fields ensures Serializable(r.fields[k]) {
        JsonifySerializable(fields[k]);
      }
    case _ =>
  }

  /** A serializable value comes back from the round trip unchanged. */
  lemma {:induction false} JsonifyIdentity(v: Value)
    requires Serializable(v)
    decreases v
    ensures Jsonify(v) == v
  {
    match v
    case Arr(items) =>
      var r := Jsonify(v);
      forall i | 0 <= i < |items| ensures r.items[i] == items[i] {
        JsonifyIdentity(items[i]);
      }
    case Obj(fields) =>
      var r := Jsonify(v);
      forall k | k in fields ensures r.fields[k] == fields[k] {
        JsonifyIdentity(fields[k]);
      }
    case _ =>
  }
  /** The decimal digits of `n`. */
  function NatText(n: nat): (r: string)
    decreases n
    ensures |r| >= 1 && forall k :: 0 <= k < |r| ==> '0' <= r[k] <= '9'
  {
    var d := ['0' + (n % 10) as char];
    if n < 10 then d else NatText(n / 10) + d
  }

  /** Strings joined with `,`, as `Array.prototype.toString` does. */
  function CommaJoin(parts: seq<string>): string {
    if parts == [] then "" else if |parts| == 1 then parts[0] else parts[0] + "," + CommaJoin(parts[1..])
  }

  /** `String(v)`, as a template literal renders it. */
  function ToText(v: Value): (r: string)
    decreases v
    ensures v.Str? ==> r == v.s
  {
    match v
    case Undefined => "undefined"
    case Null => "null"
    case Bool(b) => if b then "true" else "false"
    case Num(n) => if n < 0 then "-" + NatText(-n) else NatText(n)
    case Str(s) => s
    case Arr(items) =>
      CommaJoin(seq(|items|, i requires 0 <= i < |items| =>
        if Nullish(items[i]) then "" else ToText(items[i])))
    case Obj(_) => "[object Object]"
  }
}
