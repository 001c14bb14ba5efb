/**
  The classification loop shared by the three `compare` functions. Each
  dependency entry, in the dependency map's order, is

  - missing, when the SBOM has no version for it (`sbom.get(pkg) is None`,
    which also holds when the SBOM stores `None`);
  - otherwise present, and then a mismatch or an exact match depending on
    whether the two versions differ.

  compare_trivy_dep.py and compare_sbom.py do not report the present list;
  app.py does.
 */
module Reconcile {
  import opened Wrappers
  import opened PyJson
  import M = OrderedMap
  import opened Flatten

  datatype Classification = Classification(
    missing: seq<string>,
    present: seq<string>,
    mismatches: seq<(string, Value, Value)>,
    exact: seq<(string, Value)>)

  /**
    `sbom.get(pkg)`: `None` exactly when the name is absent or stored with
    `None`; any other result is the SBOM's entry for the name.
   */
  function SbomVersion(sbom: FlatMap, k: string): (v: Value)
    ensures v == Null <==> k !in M.Keys(sbom) || M.Get(sbom, k) == Some(Null)
    ensures v != Null ==> (k, v) in sbom
  {
    match M.Get(sbom, k)
    case None => Null
    case Some(v) => M.EntryIffGet(sbom, k, v); v
  }

  // ---------------------------------------------------------------------
  // Reference lists: each list as a filter over the dependency entries

  function MissingIn(es: seq<Entry>, sbom: FlatMap): seq<string>
    decreases |es|
  {
    if |es| == 0 then []
    else
      var e := es[|es| - 1];
      MissingIn(es[..|es| - 1], sbom) + if SbomVersion(sbom, e.0) == Null then [e.0] else []
  }

  function PresentIn(es: seq<Entry>, sbom: FlatMap): seq<string>
    decreases |es|
  {
    if |es| == 0 then []
    else
      var e := es[|es| - 1];
      PresentIn(es[..|es| - 1], sbom) + if SbomVersion(sbom, e.0) != Null then [e.0] else []
  }

  function MismatchesIn(es: seq<Entry>, sbom: FlatMap): seq<(string, Value, Value)>
    decreases |es|
  {
    if |es| == 0 then []
    else
      var e := es[|es| - 1];
      var s := SbomVersion(sbom, e.0);
      MismatchesIn(es[..|es| - 1], sbom) + if s != Null && s != e.1 then [(e.0, e.1, s)] else []
  }

  function ExactIn(es: seq<Entry>, sbom: FlatMap): seq<(string, Value)>
    decreases |es|
  {
    if |es| == 0 then []
    else
      var e := es[|es| - 1];
      var s := SbomVersion(sbom, e.0);
      ExactIn(es[..|es| - 1], sbom) + if s != Null && s == e.1 then [e] else []
  }

  // ---------------------------------------------------------------------
  // What the lists contain

  lemma {:induction false} MissingInIff(es: seq<Entry>, sbom: FlatMap, k: string)
    ensures k in MissingIn(es, sbom) <==> k in M.Keys(es) && SbomVersion(sbom, k) == Null
    decreases |es|
  {
    if |es| > 0 {
      var init := es[..|es| - 1];
      MissingInIff(init, sbom, k);
      assert M.Keys(es) == M.Keys(init) + [es[|es| - 1].0];
    }
  }

  lemma {:induction false} PresentInIff(es: seq<Entry>, sbom: FlatMap, k: string)
    ensures k in PresentIn(es, sbom) <==> k in M.Keys(es) && SbomVersion(sbom, k) != Null
    decreases |es|
  {
    if |es| > 0 {
      var init := es[..|es| - 1];
      PresentInIff(init, sbom, k);
      assert M.Keys(es) == M.Keys(init) + [es[|es| - 1].0];
    }
  }

  lemma {:induction false} MismatchesInIff(es: seq<Entry>, sbom: FlatMap, t: (string, Value, Value))
    ensures t in MismatchesIn(es, sbom) <==>
              (t.0, t.1) in es && t.2 == SbomVersion(sbom, t.0) && t.2 != Null && t.2 != t.1
    decreases |es|
  {
    if |es| > 0 {
      var init := es[..|es| - 1];
      MismatchesInIff(init, sbom, t);
      assert es == init + [es[|es| - 1]];
    }
  }

  lemma {:induction false} ExactInIff(es: seq<Entry>, sbom: FlatMap, e: Entry)
    ensures e in ExactIn(es, sbom) <==> e in es && SbomVersion(sbom, e.0) == e.1 && e.1 != Null
    decreases |es|
  {
    if |es| > 0 {
      var init := es[..|es| - 1];
      ExactInIff(init, sbom, e);
      assert es == init + [es[|es| - 1]];
    }
  }

  /** Every dependency lands in exactly one of missing, mismatches and exact; present is the last two. */
  lemma {:induction false} ClassifyCounts(es: seq<Entry>, sbom: FlatMap)
    ensures |MissingIn(es, sbom)| + |MismatchesIn(es, sbom)| + |ExactIn(es, sbom)| == |es|
    ensures |PresentIn(es, sbom)| == |MismatchesIn(es, sbom)| + |ExactIn(es, sbom)|
    decreases |es|
  {
    if |es| > 0 {
      ClassifyCounts(es[..|es| - 1], sbom);
    }
  }

  // ---------------------------------------------------------------------
  // The loop of `compare`

  method Classify(deps: FlatMap, sbom: FlatMap) returns (c: Classification)
    ensures c.missing == MissingIn(deps, sbom) && c.present == PresentIn(deps, sbom)
    ensures c.mismatches == MismatchesIn(deps, sbom) && c.exact == ExactIn(deps, sbom)
    ensures |c.missing| + |c.mismatches| + |c.exact| == |deps|
    ensures |c.present| == |c.mismatches| + |c.exact|
  {
    var missing, present := [], [];
    var mismatches, exact := [], [];
    var i := 0;
    while i < |deps|
      invariant 0 <= i <= |deps|
      invariant missing == MissingIn(deps[..i], sbom)
      invariant present == PresentIn(deps[..i], sbom)
      invariant mismatches == MismatchesIn(deps[..i], sbom)
      invariant exact == ExactIn(deps[..i], sbom)
    {
      var (pkg, depVersion) := deps[i];
      var sbomVersion := SbomVersion(sbom, pkg);
      assert deps[..i + 1][..i] == deps[..i];
      if sbomVersion == Null {
        missing := missing + [pkg];
      } else {
        present := present + [pkg];
        if depVersion != sbomVersion {
          mismatches := mismatches + [(pkg, depVersion, sbomVersion)];
        } else {
          exact := exact + [(pkg, depVersion)];
        }
      }
      i := i + 1;
    }
    assert deps[..i] == deps;
    c := Classification(missing, present, mismatches, exact);
    ClassifyCounts(deps, sbom);
  }

  /** A mismatch, in terms of the two maps' lookups. */
  lemma MismatchIffLookups(deps: FlatMap, sbom: FlatMap, k: string, d: Value, s: Value)
    ensures (k, d, s) in MismatchesIn(deps, sbom) <==>
              M.Get(deps, k) == Some(d) && s == SbomVersion(sbom, k) && s != Null && s != d
  {
    MismatchesInIff(deps, sbom, (k, d, s));
    M.EntryIffGet(deps, k, d);
  }

  /** An exact match, in terms of the two maps' lookups. */
  lemma ExactIffLookups(deps: FlatMap, sbom: FlatMap, k: string, v: Value)
    ensures (k, v) in ExactIn(deps, sbom) <==> M.Get(deps, k) == Some(v) && SbomVersion(sbom, k) == v && v != Null
  {
    ExactInIff(deps, sbom, (k, v));
    M.EntryIffGet(deps, k, v);
  }
}
