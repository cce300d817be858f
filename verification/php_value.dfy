/** The scalar values a decoded JSON airport record holds, with the two PHP conversions the
    build relies on: truthiness (`if ($v)`) and use as an array key (`$a[$v]`). */
module PhpValue {
  import opened Wrappers
  import opened PhpArray

  /** A JSON number with a fraction or an exponent. Latitudes and longitudes are such
      numbers; the model carries them as payload and gives them no arithmetic. */
  datatype Float = Float(literal: string)

  datatype Value =
    | VNull
    | VBool(b: bool)
    | VInt(i: int)
    | VFloat(f: Float)
    | VStr(s: string)

  /** A decoded JSON object: a PHP array of values keyed by field name. */
  type Record = Arr<Value>

  /** PHP's conversion to boolean, for every value but a float. */
  predicate Truthy(v: Value)
    requires !v.VFloat?
  {
    match v
    case VNull => false
    case VBool(b) => b
    case VInt(i) => i != 0
    case VStr(s) => s != "" && s != "0"
  }

  /** The falsy values are exactly null, `false`, `0`, `""` and `"0"`. */
  lemma FalsyValues(v: Value)
    requires !v.VFloat?
    ensures Truthy(v) <==> v !in {VNull, VBool(false), VInt(0), VStr(""), VStr("0")}
  {
  }

  /** The key under which `$a[$v] = ...` stores, for every value but a float. */
  function KeyOf(v: Value): (k: Key)
    requires !v.VFloat?
    ensures k.StrKey? ==> v == VNull || v == VStr(k.s)
  {
    match v
    case VNull => StrKey("")
    case VBool(b) => IntKey(if b then 1 else 0)
    case VInt(i) => IntKey(i)
    case VStr(s) => StringKey(s)
  }

  /** `$data['name']` for a field name that is not an integer string: the stored value, or
      null when the field is absent. */
  function Read(data: Record, name: string): (v: Value)
    ensures HasKey(data, StrKey(name)) ==> Get(data, StrKey(name)) == Some(v)
    ensures !HasKey(data, StrKey(name)) ==> v == VNull
  {
    match Get(data, StrKey(name))
    case Some(v) => v
    case None => VNull
  }

  /** A truthy value used as a key is found again under the string it spells, and only
      under that string, whenever that string is a string key. */
  lemma KeyOfTruthyString(v: Value, s: string)
    requires !v.VFloat? && Truthy(v)
    requires StringKey(s) == StrKey(s)
    ensures KeyOf(v) == StrKey(s) <==> v == VStr(s)
  {
  }
}
