/**
  dep_convert.py: reshaping pipgrip's `--tree-json-exact` output, a nested
  dict whose keys are pins such as "requests==2.31.0", into the record list
  that compare_trivy_dep.py's `load_deps` reads.

  Every key becomes one record with `package_name` and `installed_version`
  from splitting the key at its first "==", `required_version` "Any", and
  the records of its value as `dependencies` when the value is a dict.
 */
module PinConvert {
  import opened Wrappers
  import opened PyJson

  // ---------------------------------------------------------------------
  // Splitting a pin

  /** `"==" in s`. */
  predicate HasDoubleEq(s: string) {
    exists i :: 0 <= i < |s| - 1 && s[i] == '=' && s[i + 1] == '='
  }

  /** Position of the first "==" in `s`, or -1. */
  function FirstDoubleEq(s: string): (i: int)
    ensures -1 <= i < |s| - 1 || i == -1
    ensures 0 <= i ==> s[i] == '=' && s[i + 1] == '='
    ensures 0 <= i ==> forall j :: 0 <= j < i ==> !(s[j] == '=' && s[j + 1] == '=')
    ensures i < 0 <==> !HasDoubleEq(s)
    decreases |s|
  {
    if |s| < 2 then -1
    else if s[0] == '=' && s[1] == '=' then 0
    else
      var j := FirstDoubleEq(s[1..]);
      assert forall k :: 0 <= k < |s| - 1 ==> s[1..][k] == s[k + 1];
      if j < 0 then -1 else j + 1
  }

  /** `key.split("==", 1)` when the key holds "==", else `(key, "")`. */
  function SplitPin(key: string): (r: (string, string))
    ensures HasDoubleEq(key) ==> r.0 + "==" + r.1 == key
    ensures HasDoubleEq(key) ==> !HasDoubleEq(r.0 + "=")
    ensures !HasDoubleEq(key) ==> r == (key, "")
  {
    var i := FirstDoubleEq(key);
    if i < 0 then (key, "")
    else
      var pkg, ver := key[..i], key[i + 2..];
      assert pkg + "==" + ver == key;
      assert !HasDoubleEq(pkg + "=") by {
        var p := pkg + "=";
        forall j | 0 <= j < |p| - 1 ensures !(p[j] == '=' && p[j + 1] == '=') {
          assert p[j] == key[j] && p[j + 1] == key[j + 1];
        }
      }
      (pkg, ver)
  }

  /**
    The split is at the FIRST "==": any other way of writing the key as
    `p + "==" + v` with no "==" reaching into `p` is the one `SplitPin` finds.
   */
  lemma SplitPinUnique(key: string, p: string, v: string)
    requires p + "==" + v == key
    requires !HasDoubleEq(p + "=")
    ensures SplitPin(key) == (p, v)
  {
    assert key[|p|] == '=' && key[|p| + 1] == '=';
    assert HasDoubleEq(key);
    forall j | 0 <= j < |p| ensures !(key[j] == '=' && key[j + 1] == '=') {
      assert (p + "=")[j] == key[j] && (p + "=")[j + 1] == key[j + 1];
    }
    var i := FirstDoubleEq(key);
    assert i == |p|;
    assert key[..i] == p;
    assert key[i + 2..] == v;
  }

  /** The version part may itself hold "==": only the first one splits. */
  lemma SplitPinExample()
    ensures SplitPin("a==1==2") == ("a", "1==2")
    ensures SplitPin("flask") == ("flask", "")
  {
    SplitPinUnique("a==1==2", "a", "1==2");
    assert !HasDoubleEq("flask") by {
      assert forall i :: 0 <= i < 4 ==> "flask"[i] != '=';
    }
  }

  // ---------------------------------------------------------------------
  // Reshaping the tree

  /** One output record, with its fields in the order the source writes them. */
  function Record(pkg: string, ver: string, children: seq<Value>): Value {
    Obj([("package_name", Str(pkg)), ("installed_version", Str(ver)),
         ("required_version", Str("Any")), ("dependencies", Arr(children))])
  }

  /** `normalize(node_dict)` over the dict's items, in order. */
  function ConvertFields(fields: seq<(string, Value)>): (r: seq<Value>)
    ensures |r| == |fields|
    ensures forall i :: 0 <= i < |fields| ==> r[i] == ConvertField(fields[i])
  {
    if |fields| == 0 then [] else [ConvertField(fields[0])] + ConvertFields(fields[1..])
  }

  /** The record of one `key: subdeps` item; a non-dict value has no dependencies. */
  function ConvertField(field: (string, Value)): (r: Value)
    ensures r.Obj? && |r.fields| == 4
    ensures r.fields[0] == ("package_name", Str(SplitPin(field.0).0))
    ensures r.fields[1] == ("installed_version", Str(SplitPin(field.0).1))
    ensures r.fields[2] == ("required_version", Str("Any"))
    ensures r.fields[3].0 == "dependencies" && r.fields[3].1.Arr?
    ensures !field.1.Obj? ==> r.fields[3].1 == Arr([])
    ensures field.1.Obj? ==> |r.fields[3].1.items| == |field.1.fields|
    ensures field.1.Obj? ==> r.fields[3].1 == Arr(ConvertFields(field.1.fields))
  {
    var (pkg, ver) := SplitPin(field.0);
    Record(pkg, ver, if field.1.Obj? then ConvertFields(field.1.fields) else [])
  }

  /** `normalize(raw_data)`: the top level must be a dict (`.items()`). */
  function ConvertJson(raw: Value): (r: PyResult<seq<Value>>)
    ensures r.Ok? <==> raw.Obj?
    ensures r.Ok? ==> |r.value| == |raw.fields|
  {
    if raw.Obj? then Ok(ConvertFields(raw.fields)) else Err(AttributeError)
  }

  /** The document `json.dump` writes. */
  function Document(records: seq<Value>): Value {
    Obj([("dependencies", Arr(records))])
  }

  // ---------------------------------------------------------------------
  // Loading the input

  /** The three outcomes of `load_dependencies_from_json` that matter here. */
  datatype LoadOutcome = FileMissing | InvalidJson | Parsed(data: Value)

  /** A missing file and a JSON decode error both give an empty dict. */
  function LoadDependencies(o: LoadOutcome): (r: Value)
    ensures !o.Parsed? ==> r == Obj([])
    ensures o.Parsed? ==> r == o.data
  {
    match o
    case FileMissing => Obj([])
    case InvalidJson => Obj([])
    case Parsed(data) => data
  }

  /** `convert_json` after loading: a failed load converts to an empty list instead of raising. */
  lemma FailedLoadConvertsToNothing(o: LoadOutcome)
    requires !o.Parsed?
    ensures ConvertJson(LoadDependencies(o)) == Ok([])
    ensures Document(ConvertJson(LoadDependencies(o)).value) == Obj([("dependencies", Arr([]))])
  {
  }

  // ---------------------------------------------------------------------
  // Shape

  /** Nodes of the input: every key, at every depth. */
  function CountPins(fields: seq<(string, Value)>): nat {
    if |fields| == 0 then 0 else CountPin(fields[0]) + CountPins(fields[1..])
  }

  function CountPin(field: (string, Value)): nat {
    1 + if field.1.Obj? then CountPins(field.1.fields) else 0
  }

  /** Records of the output: every element of a list, and of its `"dependencies"` lists. */
  function CountRecords(vs: seq<Value>): nat
    decreases vs
  {
    if |vs| == 0 then 0 else 1 + CountBelow(vs[0]) + CountRecords(vs[1..])
  }

  function CountBelow(v: Value): nat
    decreases v
  {
    if !v.Obj? then 0
    else
      var i := FindKey(v.fields, "dependencies");
      if i < 0 then 0
      else match v.fields[i].1
        case Arr(items) => CountRecords(items)
        case _ => 0
  }

  /** Every record's `required_version` is "Any", at every depth. */
  predicate AllAny(vs: seq<Value>)
    decreases vs
  {
    forall i :: 0 <= i < |vs| ==> AnyRecord(vs[i])
  }

  predicate AnyRecord(v: Value)
    decreases v
  {
    && v.Obj? && |v.fields| == 4
    && v.fields[2] == ("required_version", Str("Any"))
    && v.fields[3].1.Arr? && AllAny(v.fields[3].1.items)
  }

  lemma {:induction false} ConvertAllAny(fields: seq<(string, Value)>)
    ensures AllAny(ConvertFields(fields))
    decreases fields
  {
    forall i | 0 <= i < |fields| ensures AnyRecord(ConvertFields(fields)[i]) {
      ConvertFieldAny(fields[i]);
    }
  }

  lemma {:induction false} ConvertFieldAny(field: (string, Value))
    ensures AnyRecord(ConvertField(field))
    decreases field
  {
    if field.1.Obj? {
      ConvertAllAny(field.1.fields);
    }
  }

  /** Reshaping keeps the number of nodes. */
  lemma {:induction false} ConvertKeepsCount(fields: seq<(string, Value)>)
    ensures CountRecords(ConvertFields(fields)) == CountPins(fields)
    decreases fields
  {
    if |fields| > 0 {
      var r := ConvertFields(fields);
      assert r[1..] == ConvertFields(fields[1..]);
      ConvertFieldKeepsCount(fields[0]);
      ConvertKeepsCount(fields[1..]);
    }
  }

  lemma {:induction false} ConvertFieldKeepsCount(field: (string, Value))
    ensures 1 + CountBelow(ConvertField(field)) == CountPin(field)
    decreases field
  {
    var v := ConvertField(field);
    assert FindKey(v.fields, "dependencies") == 3;
    if field.1.Obj? {
      ConvertKeepsCount(field.1.fields);
    }
  }
}
