/**
  The loop skeleton shared by every loader: a flat pass over a component
  list, and the recursive `walk` over nested dependency lists. Both loader
  families (app.py / compare_sbom.py and compare_trivy_dep.py) use the same
  skeleton and differ only in the per-element `Rule`, which turns one element
  into the entry it inserts (or into no entry, or into the exception it
  raises).

  `Walk` follows the source: it threads the one `result` dict through the
  recursion and assigns into it as it goes. `Preorder` is the reference
  reading: the list of entries in pre-order; `WalkIsPutAllPreorder` proves
  that the two agree, errors included.
 */
module Flatten {
  import opened Wrappers
  import opened PyJson
  import M = OrderedMap

  type Entry = (string, Value)
  type FlatMap = M.Map<Value>

  /** What one element contributes: an entry, nothing, or an exception. */
  type Rule = Value -> PyResult<Option<Entry>>

  function Contribution(o: Option<Entry>): seq<Entry> {
    match o
    case None => []
    case Some(e) => [e]
  }

  // ---------------------------------------------------------------------
  // Flat lists (SBOM components)

  /** The entries of a flat list, stopping at the first element that raises. */
  function Emitted(rule: Rule, xs: seq<Value>): PyResult<seq<Entry>>
    decreases |xs|
  {
    if |xs| == 0 then Ok([])
    else
      match rule(xs[0])
      case Err(e) => Err(e)
      case Ok(o) =>
        match Emitted(rule, xs[1..])
        case Err(e) => Err(e)
        case Ok(es) => Ok(Contribution(o) + es)
  }

  /** The pass succeeds exactly when no element raises. */
  lemma {:induction false} EmittedOk(rule: Rule, xs: seq<Value>)
    ensures Emitted(rule, xs).Ok? <==> forall i :: 0 <= i < |xs| ==> rule(xs[i]).Ok?
    decreases |xs|
  {
    if |xs| > 0 {
      EmittedOk(rule, xs[1..]);
      assert forall i :: 1 <= i < |xs| ==> xs[i] == xs[1..][i - 1];
    }
  }

  /** A failed pass reports the error of the first element that raises. */
  lemma {:induction false} EmittedFirstError(rule: Rule, xs: seq<Value>, i: int)
    requires 0 <= i < |xs| && rule(xs[i]).Err?
    requires forall j :: 0 <= j < i ==> rule(xs[j]).Ok?
    ensures Emitted(rule, xs) == Err(rule(xs[i]).error)
    decreases |xs|
  {
    if i > 0 {
      EmittedFirstError(rule, xs[1..], i - 1);
      assert forall j :: 0 <= j < i - 1 ==> xs[1..][j] == xs[j + 1];
    }
  }

  /** A successful pass holds exactly the entries its elements' rules give. */
  lemma {:induction false} EmittedMembers(rule: Rule, xs: seq<Value>, e: Entry)
    requires Emitted(rule, xs).Ok?
    ensures e in Emitted(rule, xs).value <==> exists i :: 0 <= i < |xs| && rule(xs[i]) == Ok(Some(e))
    decreases |xs|
  {
    if |xs| > 0 {
      EmittedMembers(rule, xs[1..], e);
      if exists i :: 1 <= i < |xs| && rule(xs[i]) == Ok(Some(e)) {
        var i :| 1 <= i < |xs| && rule(xs[i]) == Ok(Some(e));
        assert xs[1..][i - 1] == xs[i];
      }
      if exists i :: 0 <= i < |xs[1..]| && rule(xs[1..][i]) == Ok(Some(e)) {
        var i :| 0 <= i < |xs[1..]| && rule(xs[1..][i]) == Ok(Some(e));
        assert xs[1..][i] == xs[i + 1];
      }
    }
  }

  /** When every element inserts, the entries correspond to the elements one by one. */
  lemma {:induction false} EmittedAllSome(rule: Rule, xs: seq<Value>)
    requires forall i :: 0 <= i < |xs| ==> rule(xs[i]).Ok? && rule(xs[i]).value.Some?
    ensures Emitted(rule, xs).Ok?
    ensures |Emitted(rule, xs).value| == |xs|
    ensures forall i :: 0 <= i < |xs| ==> Emitted(rule, xs).value[i] == rule(xs[i]).value.value
    decreases |xs|
  {
    if |xs| > 0 {
      assert forall i :: 0 <= i < |xs| - 1 ==> xs[1..][i] == xs[i + 1];
      EmittedAllSome(rule, xs[1..]);
    }
  }

  /** `for c in <container>: result[k] = v`, started from an empty dict. */
  function LoadList(rule: Rule, container: Value): PyResult<FlatMap> {
    var xs :- Iterate(container);
    var es :- Emitted(rule, xs);
    Ok(M.PutAll([], es))
  }

  // ---------------------------------------------------------------------
  // Nested dependency lists, as the source walks them

  /** Position of a truthy `"dependencies"` field of `d`, or -1. */
  function ChildIndex(d: Value): (i: int)
    requires d.Obj?
    ensures -1 <= i < |d.fields|
    ensures 0 <= i <==> Has(d, "dependencies") && Truthy(GetOr(d, "dependencies", Null))
    ensures 0 <= i ==> d.fields[i].1 == GetOr(d, "dependencies", Null)
  {
    var i := FindKey(d.fields, "dependencies");
    if 0 <= i && Truthy(d.fields[i].1) then i else -1
  }

  /**
    `walk(x)`: iterate `x`. A list yields its items; a dict or str yields str
    elements, and the first of them raises AttributeError at `.get` (only
    the rule reads an element, and every rule starts with a dict method).
   */
  function Walk(rule: Rule, x: Value, acc: FlatMap): PyResult<FlatMap>
    decreases x
  {
    match x
    case Arr(items) => WalkList(rule, items, acc)
    case _ =>
      var xs :- Iterate(x);
      if |xs| == 0 then Ok(acc) else Err(AttributeError)
  }

  function WalkList(rule: Rule, ds: seq<Value>, acc: FlatMap): PyResult<FlatMap>
    decreases ds
  {
    if |ds| == 0 then Ok(acc)
    else
      var o :- rule(ds[0]);
      var acc1 := Assign(acc, o);
      var acc2 :- WalkChildren(rule, ds[0], acc1);
      WalkList(rule, ds[1..], acc2)
  }

  /** `if "dependencies" in d and d["dependencies"]: walk(d["dependencies"])`. */
  function WalkChildren(rule: Rule, d: Value, acc: FlatMap): PyResult<FlatMap>
    decreases d
  {
    if !d.Obj? then Ok(acc)
    else
      var i := ChildIndex(d);
      if i < 0 then Ok(acc) else Walk(rule, d.fields[i].1, acc)
  }

  // ---------------------------------------------------------------------
  // The same traversal as a list of entries in pre-order

  function Preorder(rule: Rule, x: Value): PyResult<seq<Entry>>
    decreases x
  {
    match x
    case Arr(items) => PreorderList(rule, items)
    case _ =>
      var xs :- Iterate(x);
      if |xs| == 0 then Ok([]) else Err(AttributeError)
  }

  /** A node's own entry comes before its descendants', which come before its later siblings'. */
  function PreorderList(rule: Rule, ds: seq<Value>): PyResult<seq<Entry>>
    decreases ds
  {
    if |ds| == 0 then Ok([])
    else
      var o :- rule(ds[0]);
      var below :- PreorderChildren(rule, ds[0]);
      var after :- PreorderList(rule, ds[1..]);
      Ok(Contribution(o) + (below + after))
  }

  /** One step of the traversal when nothing raises. */
  lemma PreorderListCons(rule: Rule, d: Value, rest: seq<Value>)
    requires rule(d).Ok? && PreorderChildren(rule, d).Ok? && PreorderList(rule, rest).Ok?
    ensures PreorderList(rule, [d] + rest)
         == Ok(Contribution(rule(d).value) + (PreorderChildren(rule, d).value + PreorderList(rule, rest).value))
  {
    assert ([d] + rest)[1..] == rest;
  }

  function PreorderChildren(rule: Rule, d: Value): PyResult<seq<Entry>>
    decreases d
  {
    if !d.Obj? then Ok([])
    else
      var i := ChildIndex(d);
      if i < 0 then Ok([]) else Preorder(rule, d.fields[i].1)
  }

  /** A node whose `"dependencies"` field is a list contributes that list's traversal. */
  lemma PreorderChildrenOfList(rule: Rule, d: Value, i: int, kids: seq<Value>)
    requires d.Obj? && 0 <= i < |d.fields|
    requires FindKey(d.fields, "dependencies") == i && d.fields[i].1 == Arr(kids)
    ensures PreorderChildren(rule, d) == PreorderList(rule, kids)
  {
    if kids == [] {
      assert ChildIndex(d) == -1;
    } else {
      assert ChildIndex(d) == i;
    }
  }

  /** `result[k] = v` for the contribution of one element. */
  function Assign(acc: FlatMap, o: Option<Entry>): FlatMap {
    match o
    case None => acc
    case Some(e) => M.Put(acc, e.0, e.1)
  }

  /** Assign the entries, or pass the error on. */
  function Apply(r: PyResult<seq<Entry>>, acc: FlatMap): PyResult<FlatMap> {
    match r
    case Ok(es) => Ok(M.PutAll(acc, es))
    case Err(e) => Err(e)
  }

  lemma PutContribution(acc: FlatMap, o: Option<Entry>, rest: seq<Entry>)
    ensures M.PutAll(acc, Contribution(o) + rest)
         == M.PutAll(Assign(acc, o), rest)
  {
    if o.Some? {
      assert (Contribution(o) + rest)[1..] == rest;
    } else {
      assert Contribution(o) + rest == rest;
    }
  }

  /** The accumulating walk assigns exactly the pre-order entries, in order. */
  lemma {:induction false} WalkIsPutAllPreorder(rule: Rule, x: Value, acc: FlatMap)
    ensures Walk(rule, x, acc) == Apply(Preorder(rule, x), acc)
    decreases x
  {
    match x
    case Arr(items) => WalkListIsPutAll(rule, items, acc);
    case _ =>
  }

  lemma {:induction false} WalkListIsPutAll(rule: Rule, ds: seq<Value>, acc: FlatMap)
    ensures WalkList(rule, ds, acc) == Apply(PreorderList(rule, ds), acc)
    decreases ds
  {
    if |ds| > 0 && rule(ds[0]).Ok? {
      var o := rule(ds[0]).value;
      var acc1 := Assign(acc, o);
      WalkChildrenIsPutAll(rule, ds[0], acc1);
      var below := PreorderChildren(rule, ds[0]);
      if below.Ok? {
        var acc2 := M.PutAll(acc1, below.value);
        assert WalkList(rule, ds, acc) == WalkList(rule, ds[1..], acc2);
        WalkListIsPutAll(rule, ds[1..], acc2);
        var after := PreorderList(rule, ds[1..]);
        if after.Ok? {
          var b, a := below.value, after.value;
          assert PreorderList(rule, ds) == Ok(Contribution(o) + (b + a));
          calc {
            M.PutAll(acc, Contribution(o) + (b + a));
            { PutContribution(acc, o, b + a); }
            M.PutAll(acc1, b + a);
            { M.PutAllAppend(acc1, b, a); }
            M.PutAll(acc2, a);
          }
        }
      }
    }
  }

  lemma {:induction false} WalkChildrenIsPutAll(rule: Rule, d: Value, acc: FlatMap)
    ensures WalkChildren(rule, d, acc) == Apply(PreorderChildren(rule, d), acc)
    decreases d
  {
    if d.Obj? {
      var i := ChildIndex(d);
      if i >= 0 {
        WalkIsPutAllPreorder(rule, d.fields[i].1, acc);
      }
    }
  }

  /** The elements the walk reads, in the order it reads them. */
  function Nodes(x: Value): seq<Value>
    decreases x
  {
    match x
    case Arr(items) => NodesList(items)
    case _ => []
  }

  function NodesList(ds: seq<Value>): seq<Value>
    decreases ds
  {
    if |ds| == 0 then [] else [ds[0]] + (NodesBelow(ds[0]) + NodesList(ds[1..]))
  }

  function NodesBelow(d: Value): seq<Value>
    decreases d
  {
    if !d.Obj? then []
    else
      var i := ChildIndex(d);
      if i < 0 then [] else Nodes(d.fields[i].1)
  }

  /** `e` is what the rule makes of one of `nodes`. */
  ghost predicate EmittedBy(rule: Rule, e: Entry, nodes: seq<Value>) {
    exists d :: d in nodes && rule(d) == Ok(Some(e))
  }

  /** Every entry of the traversal is the rule's entry for an element the walk visits. */
  lemma {:induction false} PreorderEntriesEmitted(rule: Rule, x: Value)
    ensures Preorder(rule, x).Ok? ==> forall e :: e in Preorder(rule, x).value ==> EmittedBy(rule, e, Nodes(x))
    decreases x
  {
    if x.Arr? {
      PreorderListEntriesEmitted(rule, x.items);
    }
  }

  lemma {:induction false} PreorderListEntriesEmitted(rule: Rule, ds: seq<Value>)
    ensures PreorderList(rule, ds).Ok? ==>
              forall e :: e in PreorderList(rule, ds).value ==> EmittedBy(rule, e, NodesList(ds))
    decreases ds
  {
    if |ds| > 0 && PreorderList(rule, ds).Ok? {
      var nodes := NodesList(ds);
      var below, after := NodesBelow(ds[0]), NodesList(ds[1..]);
      assert nodes == [ds[0]] + (below + after);
      PreorderChildrenEntriesEmitted(rule, ds[0]);
      PreorderListEntriesEmitted(rule, ds[1..]);
      var o := rule(ds[0]).value;
      forall e | e in PreorderList(rule, ds).value
        ensures EmittedBy(rule, e, nodes)
      {
        if e in Contribution(o) {
          assert rule(ds[0]) == Ok(Some(e)) && ds[0] in nodes;
        } else if e in PreorderChildren(rule, ds[0]).value {
          var d :| d in below && rule(d) == Ok(Some(e));
          assert d in nodes;
        } else {
          assert e in PreorderList(rule, ds[1..]).value;
          var d :| d in after && rule(d) == Ok(Some(e));
          assert d in nodes;
        }
      }
    }
  }

  lemma {:induction false} PreorderChildrenEntriesEmitted(rule: Rule, d: Value)
    ensures PreorderChildren(rule, d).Ok? ==>
              forall e :: e in PreorderChildren(rule, d).value ==> EmittedBy(rule, e, NodesBelow(d))
    decreases d
  {
    if d.Obj? && ChildIndex(d) >= 0 {
      PreorderEntriesEmitted(rule, d.fields[ChildIndex(d)].1);
    }
  }

  /** The concatenation of two traversals, the first error winning. */
  function Then(a: PyResult<seq<Entry>>, b: PyResult<seq<Entry>>): PyResult<seq<Entry>> {
    match a
    case Err(e) => Err(e)
    case Ok(x) => match b case Err(e) => Err(e) case Ok(y) => Ok(x + y)
  }

  /** A flat pass over `a + b` is the pass over `a` followed by the pass over `b`. */
  lemma {:induction false} EmittedAppend(rule: Rule, a: seq<Value>, b: seq<Value>)
    ensures Emitted(rule, a + b) == Then(Emitted(rule, a), Emitted(rule, b))
    decreases |a|
  {
    if |a| > 0 {
      assert (a + b)[1..] == a[1..] + b;
      EmittedAppend(rule, a[1..], b);
      var ra, rb := Emitted(rule, a[1..]), Emitted(rule, b);
      if rule(a[0]).Ok? && ra.Ok? && rb.Ok? {
        var c := Contribution(rule(a[0]).value);
        assert c + (ra.value + rb.value) == (c + ra.value) + rb.value;
      }
    } else {
      assert a + b == b;
      if Emitted(rule, b).Ok? {
        assert [] + Emitted(rule, b).value == Emitted(rule, b).value;
      }
    }
  }

  /** The element's rule inserts under key `k`. */
  predicate InsertsKey(o: PyResult<Option<Entry>>, k: string) {
    o.Ok? && o.value.Some? && o.value.value.0 == k
  }

  lemma EmittedKeyFrom(rule: Rule, xs: seq<Value>, k: string)
    requires Emitted(rule, xs).Ok? && k in M.Keys(Emitted(rule, xs).value)
    ensures exists i :: 0 <= i < |xs| && InsertsKey(rule(xs[i]), k)
  {
    var es := Emitted(rule, xs).value;
    var j :| 0 <= j < |es| && M.Keys(es)[j] == k;
    assert es[j] in es;
    EmittedMembers(rule, xs, es[j]);
    var i :| 0 <= i < |xs| && rule(xs[i]) == Ok(Some(es[j]));
    assert InsertsKey(rule(xs[i]), k);
  }

  lemma EmittedKeyTo(rule: Rule, xs: seq<Value>, i: int, k: string)
    requires Emitted(rule, xs).Ok?
    requires 0 <= i < |xs| && InsertsKey(rule(xs[i]), k)
    ensures k in M.Keys(Emitted(rule, xs).value)
  {
    var es := Emitted(rule, xs).value;
    var e := rule(xs[i]).value.value;
    EmittedMembers(rule, xs, e);
    assert e in es;
    var j :| 0 <= j < |es| && es[j] == e;
    assert M.Keys(es)[j] == k;
  }

  /** A flat pass assigns to exactly the keys its elements' rules insert under. */
  lemma EmittedKeys(rule: Rule, xs: seq<Value>, k: string)
    requires Emitted(rule, xs).Ok?
    ensures k in M.Keys(M.PutAll([], Emitted(rule, xs).value)) <==>
              exists i :: 0 <= i < |xs| && InsertsKey(rule(xs[i]), k)
  {
    M.PutAllHasKey([], Emitted(rule, xs).value, k);
    if k in M.Keys(Emitted(rule, xs).value) {
      EmittedKeyFrom(rule, xs, k);
    }
    if exists i :: 0 <= i < |xs| && InsertsKey(rule(xs[i]), k) {
      var i :| 0 <= i < |xs| && InsertsKey(rule(xs[i]), k);
      EmittedKeyTo(rule, xs, i, k);
    }
  }

  /** Any slice of a successful flat pass succeeds too. */
  lemma EmittedSliceOk(rule: Rule, xs: seq<Value>, lo: int, hi: int)
    requires Emitted(rule, xs).Ok?
    requires 0 <= lo <= hi <= |xs|
    ensures Emitted(rule, xs[lo..hi]).Ok?
  {
    EmittedOk(rule, xs);
    EmittedOk(rule, xs[lo..hi]);
    assert forall j :: 0 <= j < hi - lo ==> xs[lo..hi][j] == xs[lo + j];
  }

  lemma EmittedConsSome(rule: Rule, x: Value, rest: seq<Value>, e: Entry)
    requires rule(x) == Ok(Some(e)) && Emitted(rule, rest).Ok?
    ensures Emitted(rule, [x] + rest) == Ok([e] + Emitted(rule, rest).value)
  {
    assert ([x] + rest)[1..] == rest;
  }

  /** A successful flat pass, cut at element `i` whose rule gives entry `e`. */
  lemma EmittedSplit(rule: Rule, xs: seq<Value>, i: int, e: Entry)
    requires Emitted(rule, xs).Ok?
    requires 0 <= i < |xs| && rule(xs[i]) == Ok(Some(e))
    ensures Emitted(rule, xs[..i]).Ok? && Emitted(rule, xs[i + 1..]).Ok?
    ensures Emitted(rule, xs).value == Emitted(rule, xs[..i]).value + ([e] + Emitted(rule, xs[i + 1..]).value)
  {
    var before, after := xs[..i], xs[i + 1..];
    assert Emitted(rule, before).Ok? && Emitted(rule, after).Ok? by {
      EmittedSliceOk(rule, xs, 0, i);
      EmittedSliceOk(rule, xs, i + 1, |xs|);
      assert xs[0..i] == before && xs[i + 1..|xs|] == after;
    }
    EmittedAt(rule, xs, i, e);
  }

  lemma EmittedAt(rule: Rule, xs: seq<Value>, i: int, e: Entry)
    requires 0 <= i < |xs| && rule(xs[i]) == Ok(Some(e))
    requires Emitted(rule, xs[..i]).Ok? && Emitted(rule, xs[i + 1..]).Ok?
    ensures Emitted(rule, xs) == Ok(Emitted(rule, xs[..i]).value + ([e] + Emitted(rule, xs[i + 1..]).value))
  {
    assert xs == xs[..i] + ([xs[i]] + xs[i + 1..]);
    EmittedAround(rule, xs[..i], xs[i], xs[i + 1..], e);
  }

  lemma EmittedAround(rule: Rule, before: seq<Value>, x: Value, after: seq<Value>, e: Entry)
    requires Emitted(rule, before).Ok? && Emitted(rule, after).Ok? && rule(x) == Ok(Some(e))
    ensures Emitted(rule, before + ([x] + after))
         == Ok(Emitted(rule, before).value + ([e] + Emitted(rule, after).value))
  {
    EmittedConsSome(rule, x, after, e);
    EmittedAppend(rule, before, [x] + after);
  }

  /** An element's entry decides its key unless a later element's rule inserts under the same key. */
  lemma EmittedLastWins(rule: Rule, xs: seq<Value>, i: int, e: Entry)
    requires Emitted(rule, xs).Ok?
    requires 0 <= i < |xs| && rule(xs[i]) == Ok(Some(e))
    requires forall j :: i < j < |xs| ==> !InsertsKey(rule(xs[j]), e.0)
    ensures M.Get(M.PutAll([], Emitted(rule, xs).value), e.0) == Some(e.1)
  {
    EmittedSplit(rule, xs, i, e);
    var after := xs[i + 1..];
    var a, b := Emitted(rule, xs[..i]).value, Emitted(rule, after).value;
    var es := a + ([e] + b);
    assert e.0 !in M.Keys(b) by {
      if e.0 in M.Keys(b) {
        EmittedKeyFrom(rule, after, e.0);
        assert false;
      }
    }
    forall j | |a| < j < |es|
      ensures es[j].0 != e.0
    {
      assert es[j] == b[j - |a| - 1];
      assert M.Keys(b)[j - |a| - 1] == es[j].0;
    }
    assert es[|a|] == e;
    M.PutAllLastWins([], es, |a|);
  }
}
