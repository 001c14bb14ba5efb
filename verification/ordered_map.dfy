/**
  An insertion-ordered map from package names, the behaviour of a Python dict built by repeated
  `result[k] = v`: assigning to an existing key replaces its value in place
  and keeps the key where it was first inserted; assigning to a new key
  appends it.
 */
module OrderedMap {
  import opened Wrappers

  predicate DistinctKeys<V>(m: seq<(string, V)>) {
    forall i, j | 0 <= i < j < |m| :: m[i].0 != m[j].0
  }

  type Map<V> = m: seq<(string, V)> | DistinctKeys(m) witness []

  /** The keys in iteration order, as `d.keys()`. */
  function Keys<V>(m: seq<(string, V)>): (ks: seq<string>)
    ensures |ks| == |m|
    ensures forall i :: 0 <= i < |m| ==> ks[i] == m[i].0
  {
    seq(|m|, i requires 0 <= i < |m| => m[i].0)
  }

  /** First value stored under `k`; on a `Map` the only one. */
  function Get<V>(m: seq<(string, V)>, k: string): (r: Option<V>)
    ensures r.None? <==> k !in Keys(m)
  {
    if |m| == 0 then None
    else if m[0].0 == k then Some(m[0].1)
    else Get(m[1..], k)
  }

  function IndexOf<V>(m: seq<(string, V)>, k: string): (i: nat)
    requires k in Keys(m)
    ensures i < |m| && m[i].0 == k
  {
    if m[0].0 == k then 0 else 1 + IndexOf(m[1..], k)
  }

  lemma {:induction false} GetAt<V>(m: Map<V>, i: int)
    requires 0 <= i < |m|
    ensures Get(m, m[i].0) == Some(m[i].1)
  {
    if i > 0 {
      assert m[0].0 != m[i].0;
      var tail: Map<V> := m[1..];
      GetAt(tail, i - 1);
      assert tail[i - 1] == m[i];
    }
  }

  /** `m[k] = v`. */
  function Put<V>(m: Map<V>, k: string, v: V): (r: Map<V>)
    ensures Get(r, k) == Some(v)
    ensures forall k' :: k' != k ==> Get(r, k') == Get(m, k')
    ensures Keys(r) == if k in Keys(m) then Keys(m) else Keys(m) + [k]
  {
    if k in Keys(m) then
      var i := IndexOf(m, k);
      var r := m[i := (k, v)];
      assert Keys(r) == Keys(m);
      PutKeepsOthers(m, i, k, v);
      GetAt(r, i);
      r
    else
      var r := m + [(k, v)];
      assert Keys(r) == Keys(m) + [k];
      AppendKeepsOthers(m, k, v);
      GetAt(r, |m|);
      r
  }

  lemma {:induction false} PutKeepsOthers<V>(m: Map<V>, i: nat, k: string, v: V)
    requires i < |m| && m[i].0 == k
    ensures DistinctKeys(m[i := (k, v)])
    ensures forall k' :: k' != k ==> Get(m[i := (k, v)], k') == Get(m, k')
  {
    forall k' | k' != k
      ensures Get(m[i := (k, v)], k') == Get(m, k')
    {
      GetSameOff(m, m[i := (k, v)], k');
    }
  }

  lemma {:induction false} AppendKeepsOthers<V>(m: Map<V>, k: string, v: V)
    requires k !in Keys(m)
    ensures DistinctKeys(m + [(k, v)])
    ensures forall k' :: k' != k ==> Get(m + [(k, v)], k') == Get(m, k')
  {
    var r := m + [(k, v)];
    forall k' | k' != k
      ensures Get(r, k') == Get(m, k')
    {
      GetPrefix(m, [(k, v)], k');
    }
  }

  /** Two association lists that agree wherever the key is not `k'` look `k'` up alike. */
  lemma {:induction false} GetSameOff<V>(a: seq<(string, V)>, b: seq<(string, V)>, k': string)
    requires |a| == |b|
    requires forall j :: 0 <= j < |a| ==> a[j].0 == b[j].0
    requires forall j :: 0 <= j < |a| && a[j].0 == k' ==> a[j] == b[j]
    ensures Get(a, k') == Get(b, k')
  {
    if |a| > 0 && a[0].0 != k' {
      GetSameOff(a[1..], b[1..], k');
    }
  }

  lemma {:induction false} GetPrefix<V>(a: seq<(string, V)>, b: seq<(string, V)>, k: string)
    requires k in Keys(a) || k !in Keys(b)
    ensures Get(a + b, k) == Get(a, k)
  {
    if |a| == 0 {
    } else if a[0].0 != k {
      assert (a + b)[1..] == a[1..] + b;
      GetPrefix(a[1..], b, k);
    }
  }

  /** The keys of `ks` not already in `prior`, each once, in order of first occurrence. */
  function NewKeys(ks: seq<string>, prior: seq<string>): seq<string> {
    if |ks| == 0 then []
    else if ks[0] in prior then NewKeys(ks[1..], prior)
    else [ks[0]] + NewKeys(ks[1..], prior + [ks[0]])
  }

  /** The value of the LAST entry for `k`. */
  function LastValue<V>(es: seq<(string, V)>, k: string): V
    requires k in Keys(es)
  {
    if es[|es| - 1].0 == k then es[|es| - 1].1 else LastValue(es[..|es| - 1], k)
  }

  /** Successive assignments `m[k] = v` for the entries of `es`, in order. */
  function PutAll<V>(m: Map<V>, es: seq<(string, V)>): Map<V>
    decreases |es|
  {
    if |es| == 0 then m else PutAll(Put(m, es[0].0, es[0].1), es[1..])
  }

  lemma {:induction false} PutAllAppend<V>(m: Map<V>, a: seq<(string, V)>, b: seq<(string, V)>)
    ensures PutAll(m, a + b) == PutAll(PutAll(m, a), b)
    decreases |a|
  {
    if |a| > 0 {
      assert (a + b)[1..] == a[1..] + b;
      PutAllAppend(Put(m, a[0].0, a[0].1), a[1..], b);
    } else {
      assert a + b == b;
    }
  }

  /** Later entries overwrite earlier ones: each key ends up with its last value. */
  lemma {:induction false} PutAllGet<V>(m: Map<V>, es: seq<(string, V)>, k: string)
    ensures Get(PutAll(m, es), k) == if k in Keys(es) then Some(LastValue(es, k)) else Get(m, k)
    decreases |es|
  {
    if |es| > 0 {
      PutAllGet(m, es[..|es| - 1], k);
      PutAllGetStep(m, es, k);
    }
  }

  /** One more assignment at the end, given the lookup before it. */
  lemma PutAllGetStep<V>(m: Map<V>, es: seq<(string, V)>, k: string)
    requires |es| > 0
    requires var init := es[..|es| - 1];
             Get(PutAll(m, init), k) == if k in Keys(init) then Some(LastValue(init, k)) else Get(m, k)
    ensures Get(PutAll(m, es), k) == if k in Keys(es) then Some(LastValue(es, k)) else Get(m, k)
  {
    PutAllSnoc(m, es);
    LastValueSnoc(es, k);
  }

  /** The last assignment is a `Put` after the others. */
  lemma PutAllSnoc<V>(m: Map<V>, es: seq<(string, V)>)
    requires |es| > 0
    ensures PutAll(m, es) == Put(PutAll(m, es[..|es| - 1]), es[|es| - 1].0, es[|es| - 1].1)
  {
    var init, last := es[..|es| - 1], es[|es| - 1];
    assert es == init + [last];
    PutAllAppend(m, init, [last]);
    PutAllOne(PutAll(m, init), last);
  }

  /** How the last entry decides membership and the last value. */
  lemma LastValueSnoc<V>(es: seq<(string, V)>, k: string)
    requires |es| > 0
    ensures k in Keys(es) <==> k == es[|es| - 1].0 || k in Keys(es[..|es| - 1])
    ensures k == es[|es| - 1].0 ==> LastValue(es, k) == es[|es| - 1].1
    ensures k != es[|es| - 1].0 && k in Keys(es) ==> LastValue(es, k) == LastValue(es[..|es| - 1], k)
  {
    var init, last := es[..|es| - 1], es[|es| - 1];
    assert es == init + [last];
    KeysSnoc(init, last);
  }

  lemma PutAllOne<V>(m: Map<V>, e: (string, V))
    ensures PutAll(m, [e]) == Put(m, e.0, e.1)
  {
    assert [e][1..] == [];
  }

  lemma KeysSnoc<V>(init: seq<(string, V)>, last: (string, V))
    ensures Keys(init + [last]) == Keys(init) + [last.0]
  {
  }

  /** Keys keep their first-insertion position; new keys are appended in first-occurrence order. */
  lemma {:induction false} PutAllKeys<V>(m: Map<V>, es: seq<(string, V)>)
    ensures Keys(PutAll(m, es)) == Keys(m) + NewKeys(Keys(es), Keys(m))
    decreases |es|
  {
    if |es| > 0 {
      var m1 := Put(m, es[0].0, es[0].1);
      PutAllKeys(m1, es[1..]);
      assert Keys(es)[1..] == Keys(es[1..]);
      if es[0].0 !in Keys(m) {
        assert Keys(m1) == Keys(m) + [es[0].0];
      }
    }
  }

  /** A key is in the result exactly when it was there before or is assigned. */
  lemma PutAllHasKey<V>(m: Map<V>, es: seq<(string, V)>, k: string)
    ensures k in Keys(PutAll(m, es)) <==> k in Keys(m) || k in Keys(es)
  {
    PutAllGet(m, es, k);
  }

  lemma {:induction false} LastValueAt<V>(es: seq<(string, V)>, i: int)
    requires 0 <= i < |es|
    requires forall j :: i < j < |es| ==> es[j].0 != es[i].0
    ensures LastValue(es, es[i].0) == es[i].1
    decreases |es|
  {
    if i < |es| - 1 {
      var init := es[..|es| - 1];
      assert init[i] == es[i];
      LastValueAt(init, i);
    }
  }

  lemma {:induction false} LastValueIn<V>(es: seq<(string, V)>, k: string)
    requires k in Keys(es)
    ensures (k, LastValue(es, k)) in es
    decreases |es|
  {
    if es[|es| - 1].0 != k {
      var init := es[..|es| - 1];
      assert k in Keys(init) by {
        var i :| 0 <= i < |es| && Keys(es)[i] == k;
        assert init[i] == es[i];
      }
      LastValueIn(init, k);
    }
  }

  /** An entry with no later entry for the same key decides that key's value. */
  lemma PutAllLastWins<V>(m: Map<V>, es: seq<(string, V)>, i: int)
    requires 0 <= i < |es|
    requires forall j :: i < j < |es| ==> es[j].0 != es[i].0
    ensures Get(PutAll(m, es), es[i].0) == Some(es[i].1)
  {
    PutAllGet(m, es, es[i].0);
    LastValueAt(es, i);
  }

  /** Every value in the result is the value of an assigned entry or was there before. */
  lemma PutAllValueFrom<V>(m: Map<V>, es: seq<(string, V)>, k: string)
    requires Get(PutAll(m, es), k).Some?
    ensures (k, Get(PutAll(m, es), k).value) in es || Get(PutAll(m, es), k) == Get(m, k)
  {
    PutAllGet(m, es, k);
    if k in Keys(es) {
      LastValueIn(es, k);
    }
  }

  /** In a map, an entry is present exactly when looking its key up gives its value. */
  lemma EntryIffGet<V>(m: Map<V>, k: string, v: V)
    ensures (k, v) in m <==> Get(m, k) == Some(v)
  {
    if (k, v) in m {
      var i :| 0 <= i < |m| && m[i] == (k, v);
      GetAt(m, i);
    }
    if Get(m, k) == Some(v) {
      var i := IndexOf(m, k);
      GetAt(m, i);
    }
  }
}
