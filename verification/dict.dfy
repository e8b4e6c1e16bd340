/**
 * The `rawdat` dictionary the decoder fills: a Python dict, i.e. a sequence of key/value
 * entries in insertion order with each key at most once.
 */
module Dict {
  import opened Wrappers

  /** The three kinds of value the decoder stores: a float (kept exact), an int, a str. */
  datatype Value = Float(x: real) | Int(n: int) | Str(s: string)

  datatype Entry = Entry(key: string, value: Value)

  type Dict = seq<Entry>

  /** The keys in iteration (insertion) order, as `d.keys()` yields them. */
  function Keys(d: Dict): (ks: seq<string>)
    ensures |ks| == |d|
    ensures forall i :: 0 <= i < |d| ==> ks[i] == d[i].key
  {
    if d == [] then [] else [d[0].key] + Keys(d[1..])
  }

  lemma KeysAppend(d: Dict, e: Dict)
    ensures Keys(d + e) == Keys(d) + Keys(e)
  {
    assert forall i :: 0 <= i < |d + e| ==> Keys(d + e)[i] == (Keys(d) + Keys(e))[i];
  }

  /** No key occurs twice, as in every Python dict. */
  predicate DistinctKeys(d: Dict) {
    forall i, j :: 0 <= i < j < |d| ==> d[i].key != d[j].key
  }

  /** `d.get(k)`: the value stored under `k`, `None` when `k not in d`. */
  function Get(d: Dict, k: string): (r: Option<Value>)
    ensures r.None? <==> k !in Keys(d)
    ensures DistinctKeys(d) ==> forall i :: 0 <= i < |d| && d[i].key == k ==> r == Some(d[i].value)
  {
    if d == [] then None
    else if d[0].key == k then Some(d[0].value)
    else
      assert Keys(d) == [d[0].key] + Keys(d[1..]);
      Get(d[1..], k)
  }

  /** The dict literal `{}` with entries appended: lookups see the appended entries. */
  lemma {:induction false} GetAppend(d: Dict, e: Dict, k: string)
    ensures Get(d + e, k) == if k in Keys(d) then Get(d, k) else Get(e, k)
  {
    if d != [] {
      assert (d + e)[0] == d[0];
      assert (d + e)[1..] == d[1..] + e;
      GetAppend(d[1..], e, k);
    } else {
      assert d + e == e;
    }
  }

  /**
   * `d[k] = v`: an existing key keeps its place and takes the new value, a new key is appended.
   * What it does is stated by `AssignNew` and `AssignExisting`.
   */
  function Assign(d: Dict, k: string, v: Value): Dict {
    if d == [] then [Entry(k, v)]
    else if d[0].key == k then [Entry(k, v)] + d[1..]
    else [d[0]] + Assign(d[1..], k, v)
  }

  /** A key the dict lacks is appended, after every entry already there. */
  lemma {:induction false} AssignNew(d: Dict, k: string, v: Value)
    requires forall i :: 0 <= i < |d| ==> d[i].key != k
    ensures Assign(d, k, v) == d + [Entry(k, v)]
  {
    if d != [] {
      AssignNew(d[1..], k, v);
      assert [d[0]] + (d[1..] + [Entry(k, v)]) == d + [Entry(k, v)];
    }
  }

  /** Assigning again the key that was appended last replaces its value in place. */
  lemma {:induction false} AssignLast(d: Dict, k: string, v: Value, w: Value)
    requires forall i :: 0 <= i < |d| ==> d[i].key != k
    ensures Assign(d + [Entry(k, v)], k, w) == d + [Entry(k, w)]
  {
    if d != [] {
      var e := d + [Entry(k, v)];
      assert e[0] == d[0] && e[1..] == d[1..] + [Entry(k, v)];
      AssignLast(d[1..], k, v, w);
      assert [d[0]] + (d[1..] + [Entry(k, w)]) == d + [Entry(k, w)];
    }
  }

  /** A key the dict holds keeps its place and takes the new value; nothing else changes. */
  lemma {:induction false} AssignExisting(d: Dict, k: string, v: Value)
    requires DistinctKeys(d) && k in Keys(d)
    ensures |Assign(d, k, v)| == |d|
    ensures forall i :: 0 <= i < |d| ==> Assign(d, k, v)[i] == if d[i].key == k then Entry(k, v) else d[i]
  {
    var r := Assign(d, k, v);
    if d[0].key == k {
      forall i | 1 <= i < |d|
        ensures r[i] == d[i]
      {
        assert d[i].key != k;
      }
    } else {
      var t := d[1..];
      assert Keys(d) == [d[0].key] + Keys(t);
      assert DistinctKeys(t) by {
        forall i, j | 0 <= i < j < |t|
          ensures t[i].key != t[j].key
        {
          assert t[i] == d[i + 1] && t[j] == d[j + 1];
        }
      }
      AssignExisting(t, k, v);
      forall i | 1 <= i < |d|
        ensures r[i] == if d[i].key == k then Entry(k, v) else d[i]
      {
        assert r[i] == Assign(t, k, v)[i - 1] && t[i - 1] == d[i];
      }
    }
  }

  /** `d[k] = v` keeps the keys distinct. */
  lemma AssignKeepsDistinct(d: Dict, k: string, v: Value)
    requires DistinctKeys(d)
    ensures DistinctKeys(Assign(d, k, v))
  {
    var r := Assign(d, k, v);
    if k !in Keys(d) {
      AssignNew(d, k, v);
      forall i, j | 0 <= i < j < |r|
        ensures r[i].key != r[j].key
      {
        if j == |d| {
          assert r[i].key == Keys(d)[i];
        }
      }
    } else {
      AssignExisting(d, k, v);
      forall i, j | 0 <= i < j < |r|
        ensures r[i].key != r[j].key
      {
        assert r[i].key == d[i].key && r[j].key == d[j].key;
      }
    }
  }

  /** After `d[k] = v`, `k` reads `v` and every other key reads what it read before. */
  lemma AssignLookup(d: Dict, k: string, v: Value)
    requires DistinctKeys(d)
    ensures Get(Assign(d, k, v), k) == Some(v)
    ensures forall k' :: k' != k ==> Get(Assign(d, k, v), k') == Get(d, k')
  {
    AssignKeepsDistinct(d, k, v);
    if k !in Keys(d) {
      AssignLookupNew(d, k, v);
    } else {
      AssignLookupExisting(d, k, v);
    }
  }

  lemma AssignLookupNew(d: Dict, k: string, v: Value)
    requires DistinctKeys(d) && k !in Keys(d)
    ensures Get(Assign(d, k, v), k) == Some(v)
    ensures forall k' :: k' != k ==> Get(Assign(d, k, v), k') == Get(d, k')
  {
    AssignNew(d, k, v);
    assert Keys([Entry(k, v)]) == [k];
    GetAppend(d, [Entry(k, v)], k);
    forall k' | k' != k
      ensures Get(Assign(d, k, v), k') == Get(d, k')
    {
      GetAppend(d, [Entry(k, v)], k');
    }
  }

  lemma AssignLookupExisting(d: Dict, k: string, v: Value)
    requires DistinctKeys(d) && k in Keys(d)
    ensures Get(Assign(d, k, v), k) == Some(v)
    ensures forall k' :: k' != k ==> Get(Assign(d, k, v), k') == Get(d, k')
  {
    var r := Assign(d, k, v);
    AssignKeepsDistinct(d, k, v);
    AssignExisting(d, k, v);
    var n :| 0 <= n < |d| && Keys(d)[n] == k;
    assert r[n] == Entry(k, v);
    forall k' | k' != k
      ensures Get(r, k') == Get(d, k')
    {
      GetUnchanged(d, r, k');
    }
  }

  /** Two dicts with the same keys in the same places agree on `k` when they hold the same entry for it. */
  lemma {:induction false} GetUnchanged(d: Dict, r: Dict, k: string)
    requires |r| == |d|
    requires forall i :: 0 <= i < |d| ==> r[i].key == d[i].key && (d[i].key == k ==> r[i] == d[i])
    ensures Get(r, k) == Get(d, k)
  {
    if d != [] && d[0].key != k {
      GetUnchanged(d[1..], r[1..], k);
    }
  }

  /** Two dicts with distinct keys and no key in common join into one with distinct keys. */
  lemma DistinctAppend(a: Dict, b: Dict)
    requires DistinctKeys(a) && DistinctKeys(b)
    requires forall i, j :: 0 <= i < |a| && 0 <= j < |b| ==> a[i].key != b[j].key
    ensures DistinctKeys(a + b)
  {
    var d := a + b;
    forall i, j | 0 <= i < j < |d|
      ensures d[i].key != d[j].key
    {
      if j < |a| {
      } else if i < |a| {
        assert d[j] == b[j - |a|];
      } else {
        assert d[i] == b[i - |a|] && d[j] == b[j - |a|];
      }
    }
  }
}
