/**
  The converted pipgrip tree as compare_trivy_dep.py loads it: dep_convert.py
  writes `{"dependencies": records}` and compare_trivy_dep.py's `load_deps`
  walks exactly that list. A pin with an empty version part (no "==" in its
  key, or nothing after it) is walked through but never inserted, and an
  empty package part is stored as "unknown".
 */
module Pipeline {
  import opened Wrappers
  import opened PyJson
  import M = OrderedMap
  import Names
  import opened Flatten
  import opened PinConvert
  import TrivyLoad

  /** What one pin contributes after conversion and loading. */
  function PinEntry(key: string): seq<Entry> {
    var (pkg, ver) := SplitPin(key);
    if ver == "" then [] else [(Names.Normalize(if pkg == "" then "unknown" else pkg), Str(ver))]
  }

  /** Reference: the pins' entries in pre-order over the input tree. */
  function PinEntries(fields: seq<(string, Value)>): seq<Entry> {
    if |fields| == 0 then [] else PinEntry(fields[0].0) + (PinsBelow(fields[0]) + PinEntries(fields[1..]))
  }

  /** The entries of the pins nested under one pin. */
  function PinsBelow(field: (string, Value)): seq<Entry> {
    if field.1.Obj? then PinEntries(field.1.fields) else []
  }

  /** Where the keys the walk reads sit in a converted record. */
  lemma ConvertedKeyPositions(field: (string, Value))
    ensures var d := ConvertField(field);
            && FindKey(d.fields, "package_name") == 0 && FindKey(d.fields, "installed_version") == 1
            && FindKey(d.fields, "dependencies") == 3
            && FindKey(d.fields, "name") == -1 && FindKey(d.fields, "version") == -1
  {
    RecordKeyPositions(ConvertField(field).fields);
  }

  lemma RecordKeyPositions(fs: seq<(string, Value)>)
    requires |fs| == 4
    requires fs[0].0 == "package_name" && fs[1].0 == "installed_version"
    requires fs[2].0 == "required_version" && fs[3].0 == "dependencies"
    ensures FindKey(fs, "package_name") == 0 && FindKey(fs, "installed_version") == 1
    ensures FindKey(fs, "dependencies") == 3
    ensures FindKey(fs, "name") == -1 && FindKey(fs, "version") == -1
  {
    assert fs[0].0[0] == 'p' && fs[1].0[0] == 'i' && fs[2].0[0] == 'r' && fs[3].0[0] == 'd';
    assert "name"[0] == 'n' && "version"[0] == 'v' && "package_name"[0] == 'p';
    assert "installed_version"[0] == 'i' && "dependencies"[0] == 'd';
    FindKeyIs(fs, "package_name", 0);
    FindKeyIs(fs, "installed_version", 1);
    FindKeyIs(fs, "dependencies", 3);
    FindKeyIs(fs, "name", -1);
    FindKeyIs(fs, "version", -1);
  }

  lemma ConvertedRecordFields(field: (string, Value))
    ensures var d := ConvertField(field);
            && Get(d, "package_name") == Str(SplitPin(field.0).0) && Get(d, "name") == Null
            && Get(d, "installed_version") == Str(SplitPin(field.0).1) && Get(d, "version") == Null
  {
    ConvertedKeyPositions(field);
  }

  /** The rule of compare_trivy_dep.py's walk on one converted record. */
  lemma ConvertedNodeRule(field: (string, Value))
    ensures TrivyLoad.NodeRule(ConvertField(field)) ==
              Ok(if PinEntry(field.0) == [] then None else Some(PinEntry(field.0)[0]))
  {
    ConvertedNameAndVersion(field);
  }

  /** The name and version the walk reads from a converted record. */
  lemma ConvertedNameAndVersion(field: (string, Value))
    ensures var (pkg, ver) := SplitPin(field.0);
            && TrivyLoad.NodeName(ConvertField(field)) == Str(if pkg == "" then "unknown" else pkg)
            && TrivyLoad.NodeVersion(ConvertField(field)) == if ver == "" then Null else Str(ver)
  {
    var (pkg, ver) := SplitPin(field.0);
    ConvertedRecordFields(field);
    FirstTruthyOfTwo(Str(pkg), Null, Str("unknown"));
    FirstTruthyOfOne(Str(ver), Null);
  }

  lemma FirstTruthyOfOne(a: Value, default: Value)
    ensures TrivyLoad.FirstTruthy([a], default) == if Truthy(a) then a else default
  {
    assert [a][1..] == [];
  }

  lemma FirstTruthyOfTwo(a: Value, b: Value, default: Value)
    ensures TrivyLoad.FirstTruthy([a, b], default) == if Truthy(a) then a else if Truthy(b) then b else default
  {
    assert [a, b][1..] == [b];
    FirstTruthyOfOne(b, default);
  }

  lemma ConvertedChildren(field: (string, Value))
    ensures PreorderChildren(TrivyLoad.NodeRule, ConvertField(field)) ==
              if field.1.Obj? then PreorderList(TrivyLoad.NodeRule, ConvertFields(field.1.fields)) else Ok([])
  {
    var d := ConvertField(field);
    var kids := if field.1.Obj? then ConvertFields(field.1.fields) else [];
    assert d.fields[3].1 == Arr(kids);
    ConvertedKeyPositions(field);
    PreorderChildrenOfList(TrivyLoad.NodeRule, d, 3, kids);
  }

  lemma {:induction false} PreorderOfConverted(fields: seq<(string, Value)>)
    ensures PreorderList(TrivyLoad.NodeRule, ConvertFields(fields)) == Ok(PinEntries(fields))
    decreases fields
  {
    if |fields| > 0 {
      var rs := ConvertFields(fields);
      var tail := ConvertFields(fields[1..]);
      assert rs == [ConvertField(fields[0])] + tail;
      ConvertedNodeRule(fields[0]);
      PreorderOfConvertedField(fields[0]);
      PreorderOfConverted(fields[1..]);
      PreorderListCons(TrivyLoad.NodeRule, ConvertField(fields[0]), tail);
      var o := TrivyLoad.NodeRule(ConvertField(fields[0])).value;
      assert Contribution(o) == PinEntry(fields[0].0);
    }
  }

  lemma {:induction false} PreorderOfConvertedField(field: (string, Value))
    ensures PreorderChildren(TrivyLoad.NodeRule, ConvertField(field)) ==
              Ok(PinsBelow(field))
    decreases field
  {
    ConvertedChildren(field);
    if field.1.Obj? {
      PreorderOfConverted(field.1.fields);
    }
  }

  /**
    Loading the converted document with compare_trivy_dep.py's `load_deps`
    assigns the pins' entries in pre-order.
   */
  lemma LoadConverted(fields: seq<(string, Value)>)
    ensures TrivyLoad.LoadDeps(Document(ConvertFields(fields))) == Ok(M.PutAll([], PinEntries(fields)))
  {
    var doc := Document(ConvertFields(fields));
    assert GetOr(doc, "dependencies", Arr([])) == Arr(ConvertFields(fields));
    WalkIsPutAllPreorder(TrivyLoad.NodeRule, Arr(ConvertFields(fields)), []);
    PreorderOfConverted(fields);
  }

  /** A pin without "==" reaches the comparison as no entry at all. */
  lemma UnpinnedIsDropped(key: string)
    requires !HasDoubleEq(key)
    ensures PinEntry(key) == []
  {
  }
}
