/**
 * JSON-shaped values as the store's records hold them, and the accessors the
 * entity classes use to read fields back out of a dictionary (`data[key]`,
 * `data.get(key)`, `data.get(key, default)`).
 *
 * Python stores whatever JSON value a field holds; the model's records are
 * typed, so every accessor rejects a value of the wrong shape with `TypeError`.
 */
module Values {
  import opened Wrappers

  /** Record ids. The source draws them from [0, 2^32) but never checks a range. */
  type Id = int

  datatype Value =
    | Null
    | Bool(b: bool)
    | Int(i: int)
    | Str(s: string)
    | Arr(items: seq<Value>)
    | Obj(fields: map<string, Value>)

  /** A JSON object: the type of `to_dict` output and of every config. */
  type Config = map<string, Value>

  /** Python truthiness of an optional id: `None` and `0` are both false. */
  predicate Truthy(p: Option<Id>) {
    p.Some? && p.value != 0
  }

  // ---- encoders for optional fields -------------------------------------

  function OptInt(o: Option<int>): Value {
    match o
    case None => Null
    case Some(i) => Int(i)
  }

  function OptStr(o: Option<string>): Value {
    match o
    case None => Null
    case Some(s) => Str(s)
  }

  function OptObj(o: Option<Config>): Value {
    match o
    case None => Null
    case Some(m) => Obj(m)
  }

  function EncodeInts(xs: seq<int>): seq<Value> {
    if |xs| == 0 then [] else [Int(xs[0])] + EncodeInts(xs[1..])
  }

  function EncodeStrs(xs: seq<string>): seq<Value> {
    if |xs| == 0 then [] else [Str(xs[0])] + EncodeStrs(xs[1..])
  }

  function DecodeInts(vs: seq<Value>): Option<seq<int>> {
    if |vs| == 0 then Some([])
    else if !vs[0].Int? then None
    else match DecodeInts(vs[1..])
      case None => None
      case Some(rest) => Some([vs[0].i] + rest)
  }

  function DecodeStrs(vs: seq<Value>): Option<seq<string>> {
    if |vs| == 0 then Some([])
    else if !vs[0].Str? then None
    else match DecodeStrs(vs[1..])
      case None => None
      case Some(rest) => Some([vs[0].s] + rest)
  }

  // ---- accessors ----------------------------------------------------------

  /** The JSON shape an accessor accepts for a field. */
  datatype Shape =
    | IntField | OptIntField | StrField | OptStrField | BoolField
    | ObjField | OptObjField | IntListField | StrListField

  /** An absent field always fits; a present one must hold the shape's JSON type. */
  predicate Fits(m: Config, key: string, shape: Shape) {
    key !in m ||
    match shape
    case IntField => m[key].Int?
    case OptIntField => m[key].Null? || m[key].Int?
    case StrField => m[key].Str?
    case OptStrField => m[key].Null? || m[key].Str?
    case BoolField => m[key].Bool?
    case ObjField => m[key].Obj?
    case OptObjField => m[key].Null? || m[key].Obj?
    case IntListField => m[key].Arr? && DecodeInts(m[key].items).Some?
    case StrListField => m[key].Arr? && DecodeStrs(m[key].items).Some?
  }

  /** `data[key]` for an integer field: a missing key raises `KeyError`. */
  function RequireInt(m: Config, key: string): (r: Result<int>)
    ensures r.Ok? <==> key in m && Fits(m, key, IntField)
  {
    if key !in m then Err(KeyError(key))
    else if m[key].Int? then Ok(m[key].i)
    else Err(TypeError(key))
  }

  /** `data.get(key, default)` for an integer field. */
  function GetInt(m: Config, key: string, default: int): (r: Result<int>)
    ensures r.Ok? <==> Fits(m, key, IntField)
  {
    if key !in m then Ok(default)
    else if m[key].Int? then Ok(m[key].i)
    else Err(TypeError(key))
  }

  /** `data.get(key)` for an optional integer: absent and `null` both give None. */
  function GetOptInt(m: Config, key: string): (r: Result<Option<int>>)
    ensures r.Ok? <==> Fits(m, key, OptIntField)
  {
    if key !in m || m[key].Null? then Ok(None)
    else if m[key].Int? then Ok(Some(m[key].i))
    else Err(TypeError(key))
  }

  function GetStr(m: Config, key: string, default: string): (r: Result<string>)
    ensures r.Ok? <==> Fits(m, key, StrField)
  {
    if key !in m then Ok(default)
    else if m[key].Str? then Ok(m[key].s)
    else Err(TypeError(key))
  }

  function GetOptStr(m: Config, key: string): (r: Result<Option<string>>)
    ensures r.Ok? <==> Fits(m, key, OptStrField)
  {
    if key !in m || m[key].Null? then Ok(None)
    else if m[key].Str? then Ok(Some(m[key].s))
    else Err(TypeError(key))
  }

  function GetBool(m: Config, key: string, default: bool): (r: Result<bool>)
    ensures r.Ok? <==> Fits(m, key, BoolField)
  {
    if key !in m then Ok(default)
    else if m[key].Bool? then Ok(m[key].b)
    else Err(TypeError(key))
  }

  function GetOptObj(m: Config, key: string): (r: Result<Option<Config>>)
    ensures r.Ok? <==> Fits(m, key, OptObjField)
  {
    if key !in m || m[key].Null? then Ok(None)
    else if m[key].Obj? then Ok(Some(m[key].fields))
    else Err(TypeError(key))
  }

  /** `data.get(key, {})` followed by a dictionary method: `null` raises. */
  function GetObj(m: Config, key: string): (r: Result<Config>)
    ensures r.Ok? <==> Fits(m, key, ObjField)
  {
    if key !in m then Ok(map[])
    else if m[key].Obj? then Ok(m[key].fields)
    else Err(TypeError(key))
  }

  function GetIntList(m: Config, key: string): (r: Result<seq<int>>)
    ensures r.Ok? <==> Fits(m, key, IntListField)
  {
    if key !in m then Ok([])
    else if !m[key].Arr? then Err(TypeError(key))
    else match DecodeInts(m[key].items)
      case None => Err(TypeError(key))
      case Some(xs) => Ok(xs)
  }

  function GetStrList(m: Config, key: string): (r: Result<seq<string>>)
    ensures r.Ok? <==> Fits(m, key, StrListField)
  {
    if key !in m then Ok([])
    else if !m[key].Arr? then Err(TypeError(key))
    else match DecodeStrs(m[key].items)
      case None => Err(TypeError(key))
      case Some(xs) => Ok(xs)
  }

  // ---- list round trips ---------------------------------------------------

  /** A list of integers survives encoding to JSON and decoding back. */
  lemma {:induction false} IntsRoundTrip(xs: seq<int>)
    ensures DecodeInts(EncodeInts(xs)) == Some(xs)
  {
    if |xs| > 0 {
      IntsRoundTrip(xs[1..]);
      assert EncodeInts(xs)[1..] == EncodeInts(xs[1..]);
      assert [xs[0]] + xs[1..] == xs;
    }
  }

  /** A list of strings survives encoding to JSON and decoding back. */
  lemma {:induction false} StrsRoundTrip(xs: seq<string>)
    ensures DecodeStrs(EncodeStrs(xs)) == Some(xs)
  {
    if |xs| > 0 {
      StrsRoundTrip(xs[1..]);
      assert EncodeStrs(xs)[1..] == EncodeStrs(xs[1..]);
      assert [xs[0]] + xs[1..] == xs;
    }
  }
}
