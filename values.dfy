/**
 * The dynamically typed data the resume generator passes around: strings,
 * lists, string-keyed dictionaries and the other leaves (numbers, booleans,
 * None) that the escaper passes through untouched.
 *
 * A dictionary is an association list in insertion order, as a Python dict
 * is; assignment replaces the value of an existing key in place and appends
 * a new key at the end.
 */
module Values {
  import opened Wrappers

  datatype Value =
    | Null
    | Bool(b: bool)
    | Int(i: int)
    | Str(s: string)
    | List(items: seq<Value>)
    | Dict(entries: seq<(string, Value)>)

  /** The keys of a dictionary, in insertion order. */
  function Keys(d: seq<(string, Value)>): (ks: seq<string>)
    ensures |ks| == |d|
    ensures forall i :: 0 <= i < |d| ==> ks[i] == d[i].0
  {
    if d == [] then [] else [d[0].0] + Keys(d[1..])
  }

  /** No key occurs twice: the invariant every Python dict keeps. */
  predicate DistinctKeys(d: seq<(string, Value)>) {
    forall i, j :: 0 <= i < j < |d| ==> d[i].0 != d[j].0
  }

  /** `d.get(k)`: the value stored under `k`, if any. */
  function Lookup(d: seq<(string, Value)>, k: string): (r: Option<Value>)
    ensures r.None? <==> k !in Keys(d)
  {
    if d == [] then None
    else if d[0].0 == k then Some(d[0].1)
    else Lookup(d[1..], k)
  }

  /** `d[k] = v`: overwrite in place when `k` is present, else append. */
  function Put(d: seq<(string, Value)>, k: string, v: Value): seq<(string, Value)>
  {
    if d == [] then [(k, v)]
    else if d[0].0 == k then [(k, v)] + d[1..]
    else [d[0]] + Put(d[1..], k, v)
  }

  lemma {:induction false} LookupFound(d: seq<(string, Value)>, i: nat)
    requires DistinctKeys(d) && i < |d|
    ensures Lookup(d, d[i].0) == Some(d[i].1)
  {
    if i > 0 {
      assert d[0].0 != d[i].0;
      LookupFound(d[1..], i - 1);
    }
  }

  /** After `d[k] = v`, reading `k` gives `v`. */
  lemma {:induction false} LookupPutSame(d: seq<(string, Value)>, k: string, v: Value)
    ensures Lookup(Put(d, k, v), k) == Some(v)
  {
    if d != [] && d[0].0 != k {
      LookupPutSame(d[1..], k, v);
    }
  }

  /** After `d[k] = v`, every other key reads as before. */
  lemma {:induction false} LookupPutOther(d: seq<(string, Value)>, k: string, v: Value, k': string)
    requires k' != k
    ensures Lookup(Put(d, k, v), k') == Lookup(d, k')
  {
    if d != [] && d[0].0 != k {
      LookupPutOther(d[1..], k, v, k');
    }
  }

  /** `d[k] = v` keeps the key order and appends `k` only when it is new. */
  lemma {:induction false} KeysPut(d: seq<(string, Value)>, k: string, v: Value)
    ensures Keys(Put(d, k, v)) == if k in Keys(d) then Keys(d) else Keys(d) + [k]
  {
    if d != [] && d[0].0 != k {
      KeysPut(d[1..], k, v);
      assert Keys(d) == [d[0].0] + Keys(d[1..]);
    }
  }

  /** Assignment never makes a dict hold a key twice. */
  lemma {:induction false} PutKeepsDistinct(d: seq<(string, Value)>, k: string, v: Value)
    requires DistinctKeys(d)
    ensures DistinctKeys(Put(d, k, v))
  {
    KeysPut(d, k, v);
    var d' := Put(d, k, v);
    forall i, j | 0 <= i < j < |d'| ensures d'[i].0 != d'[j].0 {
      assert Keys(d')[i] == d'[i].0 && Keys(d')[j] == d'[j].0;
      if k !in Keys(d) && j == |d| {
        assert Keys(d')[i] == Keys(d)[i];
      } else {
        assert Keys(d')[i] == d[i].0 && Keys(d')[j] == d[j].0;
      }
    }
  }
}
