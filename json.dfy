/**
 * The parsed JSON tree (`serde_json::Value`) and the accessors the service reads
 * it with. Parsing text into a tree is not modelled: callers receive the parser
 * as a function.
 */
module Json {
  import opened Wrappers
  import opened Bytes

  /** A JSON number as `serde_json` stores it: a `u64`, a negative `i64`, or a float kept opaque. */
  datatype Number =
    | PosInt(u: U64)
    | NegInt(i: NegI64)
    | Float(bits: int)

  /** `serde_json` keeps a non-negative integer as a `PosInt`, so a `NegInt` is below zero. */
  type NegI64 = i: I64 | i < 0 witness -1

  datatype Value =
    | Null
    | Bool(b: bool)
    | Num(n: Number)
    | Str(s: string)
    | Array(items: seq<Value>)
    | Object(fields: map<string, Value>)
  {
    /** `value.get(key)` with a string key: a member of an object, nothing for any other kind. */
    function Get(key: string): (r: Option<Value>)
      ensures r.Some? <==> this.Object? && key in this.fields
      ensures r.Some? ==> r.value == this.fields[key]
    {
      if this.Object? && key in fields then Some(fields[key]) else None
    }

    /** `value.get(index)` with a numeric index: an element of an array, nothing for any other kind. */
    function At(index: nat): (r: Option<Value>)
      ensures r.Some? <==> this.Array? && index < |this.items|
      ensures r.Some? ==> r.value == this.items[index]
    {
      if this.Array? && index < |items| then Some(items[index]) else None
    }

    /** `value.as_str()` */
    function AsStr(): (r: Option<string>)
      ensures r.Some? <==> this.Str?
      ensures r.Some? ==> r.value == this.s
    {
      if this.Str? then Some(s) else None
    }

    /** `value.as_i64()`: integers that fit in an `i64`; floats never. */
    function AsI64(): (r: Option<I64>)
      ensures r.Some? ==> this.Num? && !this.n.Float?
      ensures r.Some? && this.n.PosInt? ==> r.value == this.n.u
      ensures r.Some? && this.n.NegInt? ==> r.value == this.n.i
      ensures this.Num? && this.n.NegInt? ==> r.Some?
      ensures this.Num? && this.n.PosInt? ==> (r.Some? <==> this.n.u <= I64_MAX)
    {
      match this
      case Num(PosInt(u)) => if u <= I64_MAX then Some(u) else None
      case Num(NegInt(i)) => Some(i)
      case _ => None
    }

    /** `value.as_f64()` is defined exactly for numbers. */
    predicate IsNumber() {
      this.Num?
    }
  }

  /** `Option::and_then(|v| v.get(key))`, the step of a lookup path. */
  function GetIn(v: Option<Value>, key: string): (r: Option<Value>)
    ensures r.Some? <==> v.Some? && v.value.Get(key).Some?
  {
    match v
    case None => None
    case Some(x) => x.Get(key)
  }

  /** `Option::or_else`: the first present alternative. */
  function OrElse<T>(a: Option<T>, b: Option<T>): (r: Option<T>)
    ensures a.Some? ==> r == a
    ensures a.None? ==> r == b
  {
    if a.Some? then a else b
  }
}
