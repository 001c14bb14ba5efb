/**
  Already-parsed JSON as the Python loaders see it after `json.load`, together
  with the few pieces of Python semantics the loaders rely on: `dict.get`,
  `in`, truthiness, iteration and `str()`.

  An `Obj` stands for a Python dict: its fields are the dict's items in
  insertion order. The type does not force the keys to be distinct; when a
  key is listed twice, lookups read its first occurrence. `Null` is both JSON `null` and
  Python `None`, which `json.load` identifies.
 */
module PyJson {
  import opened Wrappers

  datatype Value =
    | Null
    | Bool(b: bool)
    | Num(n: int)
    | Str(s: string)
    | Arr(items: seq<Value>)
    | Obj(fields: seq<(string, Value)>)

  /** The Python exceptions the loaders can raise on ill-shaped input. */
  datatype PyError =
    | AttributeError   // `.get` on a non-dict, `.lower()` on a non-str
    | TypeError        // iterating a non-iterable, subscripting a non-dict
    | KeyError(key: string)

  type PyResult<T> = Result<T, PyError>

  /** Position of the field named `k`, or -1. */
  function FindKey(fields: seq<(string, Value)>, k: string): (i: int)
    ensures -1 <= i < |fields|
    ensures 0 <= i ==> fields[i].0 == k
    ensures 0 <= i ==> forall j :: 0 <= j < i ==> fields[j].0 != k
    ensures i < 0 ==> forall j :: 0 <= j < |fields| ==> fields[j].0 != k
  {
    if |fields| == 0 then -1
    else if fields[0].0 == k then 0
    else
      var j := FindKey(fields[1..], k);
      if j < 0 then -1 else j + 1
  }

  /** `FindKey` is pinned down by where `k` first occurs. */
  lemma FindKeyIs(fields: seq<(string, Value)>, k: string, i: int)
    requires -1 <= i < |fields|
    requires 0 <= i ==> fields[i].0 == k
    requires forall j :: 0 <= j < |fields| && (i < 0 || j < i) ==> fields[j].0 != k
    ensures FindKey(fields, k) == i
  {
  }

  /** Python `k in d` for a dict `d`. */
  predicate Has(d: Value, k: string)
    requires d.Obj?
  {
    FindKey(d.fields, k) >= 0
  }

  /** Python `d.get(k, default)` for a dict `d`. */
  function GetOr(d: Value, k: string, default: Value): Value
    requires d.Obj?
  {
    var i := FindKey(d.fields, k);
    if i < 0 then default else d.fields[i].1
  }

  /** Python `d.get(k)`: `None` when the key is absent. */
  function Get(d: Value, k: string): Value
    requires d.Obj?
  {
    GetOr(d, k, Null)
  }

  /** Python truthiness of a JSON value. */
  predicate Truthy(v: Value) {
    match v
    case Null => false
    case Bool(b) => b
    case Num(n) => n != 0
    case Str(s) => s != ""
    case Arr(items) => items != []
    case Obj(fields) => fields != []
  }

  /**
    Python `or`: the left operand when truthy, otherwise the right one. The
    result is always one of the operands, and truthy iff either operand is.
   */
  function Or(a: Value, b: Value): (r: Value)
    ensures r == a || r == b
    ensures Truthy(r) <==> Truthy(a) || Truthy(b)
    ensures Truthy(a) ==> r == a
  {
    if Truthy(a) then a else b
  }

  function KeysAsValues(fields: seq<(string, Value)>): (r: seq<Value>)
    ensures |r| == |fields|
    ensures forall i :: 0 <= i < |fields| ==> r[i] == Str(fields[i].0)
  {
    if |fields| == 0 then [] else [Str(fields[0].0)] + KeysAsValues(fields[1..])
  }

  function CharsAsValues(s: string): (r: seq<Value>)
    ensures |r| == |s|
    ensures forall i :: 0 <= i < |s| ==> r[i] == Str([s[i]])
  {
    if |s| == 0 then [] else [Str([s[0]])] + CharsAsValues(s[1..])
  }

  /**
    The elements a Python `for x in v` loop visits: a list yields its items,
    a dict its keys, a str its one-character strings; anything else is not
    iterable.
   */
  function Iterate(v: Value): (r: PyResult<seq<Value>>)
    ensures r.Ok? <==> v.Arr? || v.Obj? || v.Str?
    ensures r.Ok? ==> (|r.value| == 0 <==> !Truthy(v))
    ensures v.Arr? ==> r == Ok(v.items)
    ensures r.Ok? && !v.Arr? ==> forall i :: 0 <= i < |r.value| ==> r.value[i].Str?
  {
    match v
    case Arr(items) => Ok(items)
    case Obj(fields) => Ok(KeysAsValues(fields))
    case Str(s) => Ok(CharsAsValues(s))
    case _ => Err(TypeError)
  }

  function DigitChar(d: nat): char
    requires d < 10
  {
    "0123456789"[d]
  }

  function NatToString(n: nat): (r: string)
    ensures |r| > 0
    decreases n
  {
    if n < 10 then [DigitChar(n)] else NatToString(n / 10) + [DigitChar(n % 10)]
  }

  function IntToString(n: int): string {
    if n < 0 then "-" + NatToString(-n) else NatToString(n)
  }

  function JoinComma(parts: seq<string>): string {
    if |parts| == 0 then ""
    else if |parts| == 1 then parts[0]
    else parts[0] + ", " + JoinComma(parts[1..])
  }

  /** Python `str(v)`, as used by an f-string: a str is shown bare. */
  function Show(v: Value): string {
    match v
    case Str(s) => s
    case _ => Repr(v)
  }

  /**
    Python `repr(v)`. Strings are quoted with `'` but not escaped; this is
    only reached for versions that are lists or dicts.
   */
  function Repr(v: Value): string {
    match v
    case Null => "None"
    case Bool(b) => if b then "True" else "False"
    case Num(n) => IntToString(n)
    case Str(s) => "'" + s + "'"
    case Arr(items) => "[" + JoinComma(ReprItems(items)) + "]"
    case Obj(fields) => "{" + JoinComma(ReprFields(fields)) + "}"
  }

  function ReprItems(items: seq<Value>): seq<string> {
    if |items| == 0 then [] else [Repr(items[0])] + ReprItems(items[1..])
  }

  function ReprFields(fields: seq<(string, Value)>): seq<string> {
    if |fields| == 0 then []
    else [ReprField(fields[0])] + ReprFields(fields[1..])
  }

  function ReprField(field: (string, Value)): string {
    "'" + field.0 + "': " + Repr(field.1)
  }
}
