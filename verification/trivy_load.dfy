/**
  The loaders of compare_trivy_dep.py. Unlike the pipdeptree loaders they
  resolve aliases by TRUTHINESS (`a or b`) and drop incomplete records:

  - `LoadSbom`: a component is kept only when both its `"name"` and its
    `"version"` are truthy.
  - `LoadDeps`: the walk starts at the top-level `"dependencies"` list; a
    node is inserted only when its version (`installed_version`, else
    `version`) is truthy, but its children are walked either way.
 */
module TrivyLoad {
  import opened Wrappers
  import opened PyJson
  import M = OrderedMap
  import Names
  import opened Flatten

  /** Reference reading of a chain `v0 or v1 or … or default`. */
  function FirstTruthy(vals: seq<Value>, default: Value): (r: Value)
    ensures Truthy(r) <==> Truthy(default) || exists i :: 0 <= i < |vals| && Truthy(vals[i])
  {
    if |vals| == 0 then default
    else if Truthy(vals[0]) then vals[0]
    else FirstTruthy(vals[1..], default)
  }

  /** Whether a component passes the `if name and version` filter. */
  predicate Kept(c: Value) {
    c.Obj? && Truthy(Get(c, "name")) && Truthy(Get(c, "version"))
  }

  /** One SBOM component. */
  function ComponentRule(c: Value): (r: PyResult<Option<Entry>>)
    ensures !c.Obj? ==> r == Err(AttributeError)
    ensures c.Obj? && !Kept(c) ==> r == Ok(None)
    ensures Kept(c) && !Get(c, "name").Str? ==> r == Err(AttributeError)
    ensures Kept(c) && Get(c, "name").Str? ==>
              r == Ok(Some((Names.Normalize(Get(c, "name").s), Get(c, "version"))))
    ensures r.Ok? && r.value.Some? ==> Truthy(r.value.value.1) && Names.IsNormalized(r.value.value.0)
  {
    if !c.Obj? then Err(AttributeError)
    else
      var name := Get(c, "name");
      var version := Get(c, "version");
      if Truthy(name) && Truthy(version) then
        if name.Str? then Ok(Some((Names.Normalize(name.s), version))) else Err(AttributeError)
      else Ok(None)
  }

  /** The node's name: `package_name`, else `name`, else "unknown", each by truthiness. */
  function NodeName(d: Value): Value
    requires d.Obj?
  {
    FirstTruthy([Get(d, "package_name"), Get(d, "name")], Str("unknown"))
  }

  /** The node's version: `installed_version` if truthy, else `version`. */
  function NodeVersion(d: Value): Value
    requires d.Obj?
  {
    FirstTruthy([Get(d, "installed_version")], Get(d, "version"))
  }

  /** One node of the walk. */
  function NodeRule(d: Value): (r: PyResult<Option<Entry>>)
    ensures !d.Obj? ==> r == Err(AttributeError)
    ensures d.Obj? && !Truthy(NodeVersion(d)) ==> r == Ok(None)
    ensures d.Obj? && Truthy(NodeVersion(d)) && !NodeName(d).Str? ==> r == Err(AttributeError)
    ensures d.Obj? && Truthy(NodeVersion(d)) && NodeName(d).Str? ==>
              r == Ok(Some((Names.Normalize(NodeName(d).s), NodeVersion(d))))
    ensures d.Obj? && !Truthy(Get(d, "package_name")) && !Truthy(Get(d, "name")) && r.Ok? && r.value.Some? ==>
              r.value.value.0 == "unknown"
    ensures r.Ok? && r.value.Some? ==> Truthy(r.value.value.1) && Names.IsNormalized(r.value.value.0)
  {
    if !d.Obj? then Err(AttributeError)
    else
      var name := Or(Or(Get(d, "package_name"), Get(d, "name")), Str("unknown"));
      var ver := Or(Get(d, "installed_version"), Get(d, "version"));
      OrChainsAreFirstTruthy(d);
      if Truthy(name) && Truthy(ver) then
        if name.Str? then
          UnknownIsNormalized();
          Ok(Some((Names.Normalize(name.s), ver)))
        else Err(AttributeError)
      else Ok(None)
  }

  /** The source's `or` chains compute `NodeName` and `NodeVersion`. */
  lemma OrChainsAreFirstTruthy(d: Value)
    requires d.Obj?
    ensures Or(Or(Get(d, "package_name"), Get(d, "name")), Str("unknown")) == NodeName(d)
    ensures Or(Get(d, "installed_version"), Get(d, "version")) == NodeVersion(d)
  {
    var pn, n, unknown := Get(d, "package_name"), Get(d, "name"), Str("unknown");
    assert [pn, n][1..] == [n];
    assert FirstTruthy([n], unknown) == Or(n, unknown) by {
      assert [n][1..] == [];
      assert FirstTruthy([], unknown) == unknown;
    }
    assert FirstTruthy([pn, n], unknown) == if Truthy(pn) then pn else FirstTruthy([n], unknown);
    var iv, v := Get(d, "installed_version"), Get(d, "version");
    assert [iv][1..] == [];
    assert FirstTruthy([], v) == v;
    assert FirstTruthy([iv], v) == if Truthy(iv) then iv else FirstTruthy([], v);
  }

  lemma UnknownIsNormalized()
    ensures Names.Normalize("unknown") == "unknown"
  {
    assert Names.IsNormalized("unknown") by {
      assert forall i :: 0 <= i < |"unknown"| ==> Names.CanonicalChar("unknown"[i]);
    }
    Names.NormalizeFixesNormalized("unknown");
  }

  /** `load_sbom` after `json.load`: only truthy versions, under normalized names, are stored. */
  function LoadSbom(data: Value): (r: PyResult<FlatMap>)
    ensures !data.Obj? ==> r == Err(AttributeError)
    ensures data.Obj? && !Has(data, "components") ==> r == Ok([])
    ensures r.Ok? ==> forall k :: M.Get(r.value, k).Some? ==>
              Truthy(M.Get(r.value, k).value) && Names.IsNormalized(k)
  {
    if !data.Obj? then Err(AttributeError)
    else
      var components := GetOr(data, "components", Arr([]));
      KeptComponentsOnly(components);
      LoadList(ComponentRule, components)
  }

  /** Every entry the component pass stores comes through the `name and version` filter. */
  lemma KeptComponentsOnly(components: Value)
    ensures var r := LoadList(ComponentRule, components);
            r.Ok? ==> forall k :: M.Get(r.value, k).Some? ==>
              Truthy(M.Get(r.value, k).value) && Names.IsNormalized(k)
  {
    var r := LoadList(ComponentRule, components);
    if r.Ok? {
      var xs := Iterate(components).value;
      var es := Emitted(ComponentRule, xs).value;
      assert r.value == M.PutAll([], es);
      forall k | M.Get(r.value, k).Some?
        ensures Truthy(M.Get(r.value, k).value) && Names.IsNormalized(k)
      {
        var v := M.Get(r.value, k).value;
        M.PutAllValueFrom([], es, k);
        EmittedMembers(ComponentRule, xs, (k, v));
        var i :| 0 <= i < |xs| && ComponentRule(xs[i]) == Ok(Some((k, v)));
        Names.NormalizeIsNormalized(Get(xs[i], "name").s);
      }
    }
  }

  /**
    `load_deps` after `json.load`: the walk starts at `data.get("dependencies", [])`,
    so a document without that key loads as an empty map; otherwise the map
    is the pre-order entries of that value assigned in turn.
   */
  function LoadDeps(data: Value): (r: PyResult<FlatMap>)
    ensures !data.Obj? ==> r == Err(AttributeError)
    ensures data.Obj? && !Has(data, "dependencies") ==> r == Ok([])
    ensures data.Obj? ==> r == Apply(Preorder(NodeRule, GetOr(data, "dependencies", Arr([]))), [])
  {
    if !data.Obj? then Err(AttributeError)
    else
      var top := GetOr(data, "dependencies", Arr([]));
      WalkIsPutAllPreorder(NodeRule, top, []);
      Walk(NodeRule, top, [])
  }

  // ---------------------------------------------------------------------
  // SBOM

  lemma LoadSbomIsPutAll(data: Value, cs: seq<Value>)
    requires data.Obj? && GetOr(data, "components", Arr([])) == Arr(cs)
    ensures LoadSbom(data) == Apply(Emitted(ComponentRule, cs), [])
  {
  }

  /** The normalized name a kept component is stored under. */
  function KeptKey(c: Value): string
    requires Kept(c) && Get(c, "name").Str?
  {
    Names.Normalize(Get(c, "name").s)
  }

  /** The keys are exactly the normalized names of the components the filter keeps. */
  lemma LoadSbomKeysAreKept(data: Value, cs: seq<Value>, k: string)
    requires data.Obj? && GetOr(data, "components", Arr([])) == Arr(cs)
    requires LoadSbom(data).Ok?
    ensures k in M.Keys(LoadSbom(data).value) <==>
              exists i :: 0 <= i < |cs| && Kept(cs[i]) && Get(cs[i], "name").Str? && KeptKey(cs[i]) == k
  {
    LoadSbomIsPutAll(data, cs);
    EmittedKeys(ComponentRule, cs, k);
    forall i | 0 <= i < |cs|
      ensures InsertsKey(ComponentRule(cs[i]), k)
          <==> Kept(cs[i]) && Get(cs[i], "name").Str? && KeptKey(cs[i]) == k
    {
    }
  }

  /**
    A kept component decides its key's value unless a later kept component
    has the same normalized name.
   */
  lemma LoadSbomLastKeptWins(data: Value, cs: seq<Value>, i: int)
    requires data.Obj? && GetOr(data, "components", Arr([])) == Arr(cs)
    requires LoadSbom(data).Ok?
    requires 0 <= i < |cs| && Kept(cs[i])
    requires forall j :: i < j < |cs| && Kept(cs[j]) && Get(cs[j], "name").Str? && Get(cs[i], "name").Str? ==>
               KeptKey(cs[j]) != KeptKey(cs[i])
    ensures Get(cs[i], "name").Str?
    ensures M.Get(LoadSbom(data).value, KeptKey(cs[i])) == Some(Get(cs[i], "version"))
  {
    LoadSbomIsPutAll(data, cs);
    EmittedOk(ComponentRule, cs);
    assert ComponentRule(cs[i]).Ok?;
    var e := (KeptKey(cs[i]), Get(cs[i], "version"));
    forall j | i < j < |cs|
      ensures !InsertsKey(ComponentRule(cs[j]), e.0)
    {
    }
    EmittedLastWins(ComponentRule, cs, i, e);
  }

  // ---------------------------------------------------------------------
  // Dependency tree

  /** A node whose version is falsy adds nothing itself, yet its children are still walked. */
  lemma SkippedNodeStillRecurses(d: Value, rest: seq<Value>)
    requires d.Obj? && !Truthy(NodeVersion(d))
    ensures PreorderList(NodeRule, [d] + rest)
         == Then(PreorderChildren(NodeRule, d), PreorderList(NodeRule, rest))
  {
    assert ([d] + rest)[1..] == rest;
    var below, after := PreorderChildren(NodeRule, d), PreorderList(NodeRule, rest);
    if below.Ok? && after.Ok? {
      assert [] + (below.value + after.value) == below.value + after.value;
    }
  }

  /** Every stored version is truthy and every key is a normalized name. */
  lemma LoadDepsStoresTruthyVersions(data: Value, k: string)
    requires LoadDeps(data).Ok? && M.Get(LoadDeps(data).value, k).Some?
    ensures Truthy(M.Get(LoadDeps(data).value, k).value)
    ensures Names.IsNormalized(k)
  {
    var x := GetOr(data, "dependencies", Arr([]));
    var es := Preorder(NodeRule, x).value;
    assert LoadDeps(data).value == M.PutAll([], es);
    StoredEntryIsEmitted(es, x, k);
  }

  /** A stored entry is the node rule's entry for some visited node. */
  lemma StoredEntryIsEmitted(es: seq<Entry>, x: Value, k: string)
    requires Preorder(NodeRule, x) == Ok(es) && M.Get(M.PutAll([], es), k).Some?
    ensures Truthy(M.Get(M.PutAll([], es), k).value) && Names.IsNormalized(k)
  {
    var v := M.Get(M.PutAll([], es), k).value;
    M.PutAllValueFrom([], es, k);
    PreorderEntriesEmitted(NodeRule, x);
    assert (k, v) in es;
    var d :| d in Nodes(x) && NodeRule(d) == Ok(Some((k, v)));
  }
}
