/** Decoded JSON values and the Python operations the service applies to
    them: truthiness (`not v`), subscripting (`v["key"]`, `v[0]`),
    membership (`"key" in v`) and `dict.get`. Operations that Python
    refuses with a TypeError or AttributeError yield that exception's
    message, because the service turns every such exception into a record. */
module Json {
  import opened Text

  /** JSON numbers are modelled as integers. */
  datatype Value =
    | Null
    | Bool(b: bool)
    | Num(n: int)
    | Str(s: string)
    | Arr(items: seq<Value>)
    | Obj(fields: map<string, Value>)

  /** The name Python gives the type of the decoded value. */
  function TypeName(v: Value): string
  {
    match v
    case Null => "NoneType"
    case Bool(_) => "bool"
    case Num(_) => "int"
    case Str(_) => "str"
    case Arr(_) => "list"
    case Obj(_) => "dict"
  }

  /** Python truthiness: `not v` is `!Truthy(v)`. */
  predicate Truthy(v: Value)
    ensures !Truthy(v) <==> v == Null || v == Bool(false) || v == Num(0) || v == Str("") || v == Arr([]) || v == Obj(map[])
  {
    match v
    case Null => false
    case Bool(b) => b
    case Num(n) => n != 0
    case Str(s) => s != ""
    case Arr(items) => items != []
    case Obj(fields) => fields != map[]
  }

  /** A subscript key: a string (`v["name"]`) or the integer zero (`v[0]`). */
  datatype Key = Name(name: string) | Zero

  /** The result of a lookup: a value; a KeyError or IndexError (`Missing`);
      or another exception, with Python's message. */
  datatype Lookup = Found(value: Value) | Missing | Raised(message: string)

  /** Python's `v[k]`. */
  function Subscript(v: Value, k: Key): (r: Lookup)
    ensures r.Missing? <==> (v.Obj? && (k.Zero? || k.name !in v.fields))
                            || (k.Zero? && ((v.Arr? && v.items == []) || (v.Str? && v.s == "")))
  {
    match v
    case Obj(fields) =>
      // JSON object keys are strings, so `v[0]` is a KeyError
      if k.Name? && k.name in fields then Found(fields[k.name]) else Missing
    case Arr(items) =>
      if k.Name? then Raised("list indices must be integers or slices, not str")
      else if items == [] then Missing
      else Found(items[0])
    case Str(s) =>
      if k.Name? then Raised("string indices must be integers, not 'str'")
      else if s == "" then Missing
      else Found(Str([s[0]]))
    case _ => Raised("'" + TypeName(v) + "' object is not subscriptable")
  }

  /** One more subscript in a chain; the first failure stops the chain. */
  function Then(l: Lookup, k: Key): (r: Lookup)
    ensures !l.Found? ==> r == l
  {
    match l
    case Found(v) => Subscript(v, k)
    case _ => l
  }

  /** The outcome of Python's `name in v`. */
  datatype Membership = Member(present: bool) | NotIterable(message: string)

  /** Python's `name in v` for a string `name`. */
  function Contains(v: Value, name: string): (r: Membership)
    ensures v.Obj? ==> r == Member(name in v.fields)
  {
    match v
    case Obj(fields) => Member(name in fields)
    case Arr(items) => Member(Str(name) in items)
    case Str(s) => Member(Occurs(s, name))
    case _ => NotIterable("argument of type '" + TypeName(v) + "' is not iterable")
  }

  /** Python's `v.get(name, default)`, which only a dict has. */
  function Get(v: Value, name: string, default: Value): (r: Lookup)
    ensures r.Found? <==> v.Obj?
    ensures v.Obj? && name !in v.fields ==> r == Found(default)
  {
    match v
    case Obj(fields) => Found(if name in fields then fields[name] else default)
    case _ => Raised("'" + TypeName(v) + "' object has no attribute 'get'")
  }
}
