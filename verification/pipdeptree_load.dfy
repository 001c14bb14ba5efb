/**
  The loaders of app.py and compare_sbom.py (the two files carry the same
  `load_sbom` and `load_deps`).

  - `LoadSbom`: every SBOM component is kept, keyed by its normalized
    `"name"` (which must be present: `c["name"]`), with `c.get("version")` as
    value, so an absent version is stored as `None`.
  - `LoadDeps`: the pipdeptree tree is walked in pre-order; each node reads
    its fields from its `"package"` sub-object when there is one, resolves
    aliases by key PRESENCE (`key`, then `package_name`, then `name`, then
    "unknown"; `installed_version`, then `version`), and is always inserted.
 */
module PipdeptreeLoad {
  import opened Wrappers
  import opened PyJson
  import M = OrderedMap
  import Names
  import opened Flatten

  const NameAliases: seq<string> := ["key", "package_name", "name"]
  const VersionAliases: seq<string> := ["installed_version", "version"]

  /** The value of the first alias that is a key of `d`, else `default`. */
  function FirstPresent(d: Value, aliases: seq<string>, default: Value): Value
    requires d.Obj?
  {
    if |aliases| == 0 then default
    else if Has(d, aliases[0]) then GetOr(d, aliases[0], Null)
    else FirstPresent(d, aliases[1..], default)
  }

  /** The source's nested `get` defaults pick the first alias present. */
  lemma NestedGetsAreFirstPresent(info: Value)
    requires info.Obj?
    ensures GetOr(info, "key", GetOr(info, "package_name", GetOr(info, "name", Str("unknown"))))
         == FirstPresent(info, NameAliases, Str("unknown"))
    ensures GetOr(info, "installed_version", GetOr(info, "version", Null))
         == FirstPresent(info, VersionAliases, Null)
  {
    var unknown := Str("unknown");
    assert NameAliases[0] == "key" && NameAliases[1..] == ["package_name", "name"];
    assert ["package_name", "name"][1..] == ["name"];
    assert ["name"][1..] == [];
    assert FirstPresent(info, [], unknown) == unknown;
    assert FirstPresent(info, ["name"], unknown) == GetOr(info, "name", unknown);
    assert FirstPresent(info, ["package_name", "name"], unknown)
        == GetOr(info, "package_name", GetOr(info, "name", unknown));
    assert VersionAliases[0] == "installed_version" && VersionAliases[1..] == ["version"];
    assert FirstPresent(info, ["version"], Null) == GetOr(info, "version", Null);
  }

  /** `d.get("package", d)`. */
  function PackageInfo(d: Value): Value
    requires d.Obj?
  {
    GetOr(d, "package", d)
  }

  /** One `load_sbom` component: `normalize(c["name"]): c.get("version")`. */
  function ComponentRule(c: Value): (r: PyResult<Option<Entry>>)
    ensures !c.Obj? ==> r == Err(TypeError)
    ensures c.Obj? && !Has(c, "name") ==> r == Err(KeyError("name"))
    ensures r.Ok? <==> c.Obj? && Has(c, "name") && GetOr(c, "name", Null).Str?
    ensures r.Ok? ==> r.value == Some((Names.Normalize(GetOr(c, "name", Null).s), Get(c, "version")))
  {
    if !c.Obj? then Err(TypeError)
    else if !Has(c, "name") then Err(KeyError("name"))
    else
      var name := GetOr(c, "name", Null);
      if name.Str? then Ok(Some((Names.Normalize(name.s), Get(c, "version"))))
      else Err(AttributeError)
  }

  /** One `walk` node: its name and version, looked up with nested `get` defaults. */
  function NodeRule(d: Value): (r: PyResult<Option<Entry>>)
    ensures !d.Obj? ==> r == Err(AttributeError)
    ensures r.Ok? <==> d.Obj? && PackageInfo(d).Obj?
                       && FirstPresent(PackageInfo(d), NameAliases, Str("unknown")).Str?
    ensures r.Ok? ==> r.value == Some((Names.Normalize(FirstPresent(PackageInfo(d), NameAliases, Str("unknown")).s),
                                       FirstPresent(PackageInfo(d), VersionAliases, Null)))
  {
    if !d.Obj? then Err(AttributeError)
    else
      var info := GetOr(d, "package", d);
      if !info.Obj? then Err(AttributeError)
      else
        var name := GetOr(info, "key", GetOr(info, "package_name", GetOr(info, "name", Str("unknown"))));
        var version := GetOr(info, "installed_version", GetOr(info, "version", Null));
        NestedGetsAreFirstPresent(info);
        if name.Str? then Ok(Some((Names.Normalize(name.s), version)))
        else Err(AttributeError)
  }

  /** `load_sbom` after `json.load`. */
  function LoadSbom(data: Value): (r: PyResult<FlatMap>)
    ensures !data.Obj? ==> r == Err(AttributeError)
    ensures data.Obj? && !Has(data, "components") ==> r == Ok([])
  {
    if !data.Obj? then Err(AttributeError)
    else LoadList(ComponentRule, GetOr(data, "components", Arr([])))
  }

  /**
    `load_deps` after `json.load`: the walk starts at the top-level value
    itself, and the map is its pre-order entries assigned in turn.
   */
  function LoadDeps(data: Value): (r: PyResult<FlatMap>)
    ensures r == Apply(Preorder(NodeRule, data), [])
  {
    WalkIsPutAllPreorder(NodeRule, data, []);
    Walk(NodeRule, data, [])
  }

  // ---------------------------------------------------------------------
  // SBOM

  /** With the components a list, `load_sbom` assigns the components' entries in order. */
  lemma LoadSbomIsPutAll(data: Value, cs: seq<Value>)
    requires data.Obj? && GetOr(data, "components", Arr([])) == Arr(cs)
    ensures LoadSbom(data) == Apply(Emitted(ComponentRule, cs), [])
  {
  }

  predicate Named(c: Value) {
    ComponentRule(c).Ok?
  }

  function ComponentKey(c: Value): string
    requires Named(c)
  {
    ComponentRule(c).value.value.0
  }

  /**
    With every component named, each normalized name is a key, keys keep the
    order of their first component, and the LAST component with that name
    decides the value, `None` when it has no version.
   */
  lemma LoadSbomComponents(data: Value, cs: seq<Value>, i: int)
    requires data.Obj? && GetOr(data, "components", Arr([])) == Arr(cs)
    requires forall j :: 0 <= j < |cs| ==> Named(cs[j])
    requires 0 <= i < |cs|
    requires forall j :: i < j < |cs| ==> ComponentKey(cs[j]) != ComponentKey(cs[i])
    ensures LoadSbom(data).Ok?
    ensures M.Get(LoadSbom(data).value, ComponentKey(cs[i])) == Some(Get(cs[i], "version"))
    ensures !Has(cs[i], "version") ==> M.Get(LoadSbom(data).value, ComponentKey(cs[i])) == Some(Null)
  {
    LoadSbomIsPutAll(data, cs);
    EmittedAllSome(ComponentRule, cs);
    var es := Emitted(ComponentRule, cs).value;
    assert es[i] == (ComponentKey(cs[i]), Get(cs[i], "version"));
    forall j | i < j < |es|
      ensures es[j].0 != es[i].0
    {
      assert es[j].0 == ComponentKey(cs[j]);
    }
    M.PutAllLastWins([], es, i);
  }

  function ComponentKeys(cs: seq<Value>): (ks: seq<string>)
    requires forall j :: 0 <= j < |cs| ==> Named(cs[j])
    ensures |ks| == |cs| && forall j :: 0 <= j < |cs| ==> ks[j] == ComponentKey(cs[j])
  {
    if |cs| == 0 then [] else [ComponentKey(cs[0])] + ComponentKeys(cs[1..])
  }

  /** The keys are the components' normalized names, each once, in first-occurrence order. */
  lemma LoadSbomKeys(data: Value, cs: seq<Value>)
    requires data.Obj? && GetOr(data, "components", Arr([])) == Arr(cs)
    requires forall j :: 0 <= j < |cs| ==> Named(cs[j])
    ensures LoadSbom(data).Ok?
    ensures M.Keys(LoadSbom(data).value) == M.NewKeys(ComponentKeys(cs), [])
  {
    LoadSbomIsPutAll(data, cs);
    EmittedComponentKeys(cs);
    var es := Emitted(ComponentRule, cs).value;
    assert LoadSbom(data) == Ok(M.PutAll([], es));
    M.PutAllKeys([], es);
  }

  lemma EmittedComponentKeys(cs: seq<Value>)
    requires forall j :: 0 <= j < |cs| ==> Named(cs[j])
    ensures Emitted(ComponentRule, cs).Ok?
    ensures M.Keys(Emitted(ComponentRule, cs).value) == ComponentKeys(cs)
  {
    EmittedAllSome(ComponentRule, cs);
    var es := Emitted(ComponentRule, cs).value;
    forall j | 0 <= j < |cs|
      ensures M.Keys(es)[j] == ComponentKeys(cs)[j]
    {
      assert es[j] == ComponentRule(cs[j]).value.value;
    }
  }

  /** A component without a `"name"` aborts the load with KeyError, unless an earlier one raised first. */
  lemma LoadSbomNeedsNames(data: Value, cs: seq<Value>, i: int)
    requires data.Obj? && GetOr(data, "components", Arr([])) == Arr(cs)
    requires 0 <= i < |cs| && cs[i].Obj? && !Has(cs[i], "name")
    requires forall j :: 0 <= j < i ==> Named(cs[j])
    ensures LoadSbom(data) == Err(KeyError("name"))
  {
    LoadSbomIsPutAll(data, cs);
    EmittedFirstError(ComponentRule, cs, i);
  }

  // ---------------------------------------------------------------------
  // Dependency tree

  /** A resolved package as pipdeptree's `--json-tree` output describes it. */
  datatype Package = Package(key: string, version: Value, dependencies: seq<Package>)

  function EncodeNode(p: Package): Value {
    Obj([("key", Str(p.key)), ("package_name", Str(p.key)), ("installed_version", p.version),
         ("dependencies", Arr(EncodeTree(p.dependencies)))])
  }

  function EncodeTree(ps: seq<Package>): (r: seq<Value>)
    ensures |r| == |ps|
  {
    if |ps| == 0 then [] else [EncodeNode(ps[0])] + EncodeTree(ps[1..])
  }

  /** Pre-order list of `(normalized key, version)`, one per package. */
  function TreeEntries(ps: seq<Package>): seq<Entry> {
    if |ps| == 0 then []
    else [(Names.Normalize(ps[0].key), ps[0].version)] + (TreeEntries(ps[0].dependencies) + TreeEntries(ps[1..]))
  }

  function CountPackages(ps: seq<Package>): nat {
    if |ps| == 0 then 0 else 1 + CountPackages(ps[0].dependencies) + CountPackages(ps[1..])
  }

  lemma {:induction false} TreeEntriesCount(ps: seq<Package>)
    ensures |TreeEntries(ps)| == CountPackages(ps)
  {
    if |ps| > 0 {
      TreeEntriesCount(ps[0].dependencies);
      TreeEntriesCount(ps[1..]);
    }
  }

  lemma EncodedNodeRule(p: Package)
    ensures NodeRule(EncodeNode(p)) == Ok(Some((Names.Normalize(p.key), p.version)))
  {
    var d := EncodeNode(p);
    assert d.fields[0].0 == "key";
    assert d.fields[2].0 == "installed_version";
    assert FindKey(d.fields, "package") < 0;
    assert FindKey(d.fields, "key") == 0;
    assert FindKey(d.fields, "installed_version") >= 0;
    NestedGetsAreFirstPresent(d);
  }

  /** The walk of an encoded tree visits every package once, in pre-order. */
  lemma {:induction false} PreorderOfTree(ps: seq<Package>)
    ensures Preorder(NodeRule, Arr(EncodeTree(ps))) == Ok(TreeEntries(ps))
    ensures |TreeEntries(ps)| == CountPackages(ps)
  {
    TreeEntriesCount(ps);
    PreorderListOfTree(ps);
  }

  lemma {:induction false} PreorderListOfTree(ps: seq<Package>)
    ensures PreorderList(NodeRule, EncodeTree(ps)) == Ok(TreeEntries(ps))
  {
    if |ps| > 0 {
      var d := EncodeNode(ps[0]);
      assert EncodeTree(ps) == [d] + EncodeTree(ps[1..]);
      EncodedNodeRule(ps[0]);
      EncodedChildren(ps[0]);
      PreorderListOfTree(ps[0].dependencies);
      PreorderListOfTree(ps[1..]);
      PreorderListCons(NodeRule, d, EncodeTree(ps[1..]));
      var e := (Names.Normalize(ps[0].key), ps[0].version);
      assert Contribution(Some(e)) == [e];
    }
  }

  /** The children of an encoded node are walked exactly when it has dependencies. */
  lemma EncodedChildren(p: Package)
    ensures PreorderChildren(NodeRule, EncodeNode(p)) == PreorderList(NodeRule, EncodeTree(p.dependencies))
  {
    var d := EncodeNode(p);
    assert FindKey(d.fields, "dependencies") == 3 by {
      assert "key"[0] == 'k' && "package_name"[0] == 'p' && "installed_version"[0] == 'i';
      assert "dependencies"[0] == 'd';
      FindKeyIs(d.fields, "dependencies", 3);
    }
    PreorderChildrenOfList(NodeRule, d, 3, EncodeTree(p.dependencies));
  }

  /** `load_deps` on an encoded tree: the pre-order entries assigned in order, later ones overwriting. */
  lemma LoadDepsOfTree(ps: seq<Package>)
    ensures LoadDeps(Arr(EncodeTree(ps))) == Ok(M.PutAll([], TreeEntries(ps)))
    ensures M.Keys(LoadDeps(Arr(EncodeTree(ps))).value) == M.NewKeys(M.Keys(TreeEntries(ps)), [])
  {
    WalkIsPutAllPreorder(NodeRule, Arr(EncodeTree(ps)), []);
    PreorderOfTree(ps);
    M.PutAllKeys([], TreeEntries(ps));
  }

  /**
    Aliases go by presence, not truthiness: a present `key` wins over every
    later alias, even when it is empty, and a node without either version
    alias stores None.
   */
  lemma PresenceBeatsTruthiness(d: Value, k: string)
    requires d.Obj? && !Has(d, "package") && Has(d, "key") && GetOr(d, "key", Null) == Str(k)
    requires !Has(d, "installed_version") && !Has(d, "version")
    ensures NodeRule(d) == Ok(Some((Names.Normalize(k), Null)))
  {
  }

  /** Every key of the loaded dependency map is a normalized name. */
  lemma LoadDepsKeysNormalized(data: Value, k: string)
    requires LoadDeps(data).Ok? && k in M.Keys(LoadDeps(data).value)
    ensures Names.IsNormalized(k)
  {
    var es := Preorder(NodeRule, data).value;
    assert LoadDeps(data).value == M.PutAll([], es);
    M.PutAllHasKey([], es, k);
    var i :| 0 <= i < |es| && es[i].0 == k;
    PreorderEntriesEmitted(NodeRule, data);
    assert es[i] in es;
    var d :| d in Nodes(data) && NodeRule(d) == Ok(Some(es[i]));
    Names.NormalizeIsNormalized(FirstPresent(PackageInfo(d), NameAliases, Str("unknown")).s);
  }

  /**
    With a `"package"` sub-object, the node's own name and version fields are
    ignored and its children still come from the outer node.
   */
  lemma PackageSubObject(d: Value)
    requires d.Obj? && Has(d, "package")
    ensures NodeRule(d) == NodeRule(Obj([("package", Get(d, "package"))]))
    ensures PreorderChildren(NodeRule, d)
            == if Has(d, "dependencies") && Truthy(Get(d, "dependencies")) then Preorder(NodeRule, Get(d, "dependencies"))
               else Ok([])
  {
    assert FindKey([("package", Get(d, "package"))], "package") == 0;
  }
}
