/**
 * The dictionaries the pipeline passes from stage to stage: string keys, string values,
 * kept in insertion order (Python 3.7 dicts), with assignment that overwrites in place.
 */
module Tables {
  import opened Results

  /** A dict as the list of its `(key, value)` items, in insertion order. */
  type Table = seq<(string, string)>

  function Keys(t: Table): (ks: seq<string>)
    ensures |ks| == |t|
    ensures forall i :: 0 <= i < |t| ==> ks[i] == t[i].0
  {
    if t == [] then [] else [t[0].0] + Keys(t[1..])
  }

  /** `k in d`. */
  predicate HasKey(t: Table, k: string) {
    exists i :: 0 <= i < |t| && t[i].0 == k
  }

  /** Every key appears once, as in a real dict. */
  predicate DistinctKeys(t: Table) {
    forall i, j :: 0 <= i < j < |t| ==> t[i].0 != t[j].0
  }

  /** The position of the first item with key `k`, or -1. */
  function IndexOf(t: Table, k: string): (i: int)
    ensures -1 <= i < |t|
    ensures i == -1 <==> !HasKey(t, k)
    ensures i >= 0 ==> t[i].0 == k && forall j :: 0 <= j < i ==> t[j].0 != k
  {
    if t == [] then -1
    else if t[0].0 == k then 0
    else
      var i := IndexOf(t[1..], k);
      assert forall j :: 1 <= j < |t| ==> t[j] == t[1..][j - 1];
      if i < 0 then -1 else i + 1
  }

  /** `d[k] if k in d else None`. */
  function Get(t: Table, k: string): (r: Option<string>)
    ensures r.Some? <==> HasKey(t, k)
    ensures r.Some? ==> exists i :: 0 <= i < |t| && t[i] == (k, r.value)
  {
    var i := IndexOf(t, k);
    if i < 0 then None else Some(t[i].1)
  }

  /** Looking a key up in a dict that starts with a given item. */
  lemma GetCons(t: Table, k: string)
    requires t != []
    ensures Get(t, k) == if t[0].0 == k then Some(t[0].1) else Get(t[1..], k)
  {
    if t[0].0 != k {
      var i := IndexOf(t[1..], k);
      assert forall j :: 1 <= j < |t| ==> t[j] == t[1..][j - 1];
      if i >= 0 {
        assert IndexOf(t, k) == i + 1;
      } else {
        assert IndexOf(t, k) == -1;
      }
    }
  }

  /** `d[k] if k in d else default`, read off the items from the front. */
  function ValueOr(t: Table, k: string, default: string): string {
    if t == [] then default
    else if t[0].0 == k then t[0].1
    else ValueOr(t[1..], k, default)
  }

  /** `ValueOr` is the lookup `Get` with the default filled in for a missing key. */
  lemma {:induction false} ValueOrIsGet(t: Table, k: string, default: string)
    ensures ValueOr(t, k, default) == Get(t, k).GetOr(default)
  {
    if t != [] {
      GetCons(t, k);
      ValueOrIsGet(t[1..], k, default);
    }
  }

  /** `d[k] = v`: overwrites the value in place when `k` is a key, appends a new item otherwise. */
  function Set(t: Table, k: string, v: string): (r: Table)
    ensures HasKey(t, k) ==> |r| == |t|
    ensures !HasKey(t, k) ==> r == t + [(k, v)]
    ensures HasKey(r, k)
    ensures forall i :: 0 <= i < |t| ==> r[i].0 == t[i].0
  {
    var i := IndexOf(t, k);
    if i < 0 then
      assert (t + [(k, v)])[|t|].0 == k;
      t + [(k, v)]
    else
      assert t[i := (k, v)][i].0 == k;
      t[i := (k, v)]
  }

  /** After `d[k] = v`, `d[k]` is `v`, every other key keeps its value, and keys stay distinct. */
  lemma GetSet(t: Table, k: string, v: string, other: string)
    requires DistinctKeys(t)
    ensures Get(Set(t, k, v), k) == Some(v)
    ensures other != k ==> Get(Set(t, k, v), other) == Get(t, other)
    ensures DistinctKeys(Set(t, k, v))
  {
    var r := Set(t, k, v);
    var i := IndexOf(t, k);
    assert IndexOf(r, k) == (if i < 0 then |t| else i);
    if other != k {
      var j := IndexOf(t, other);
      assert IndexOf(r, other) == j;
    }
  }

  /** The items whose key satisfies `keep`, in order (a filtered dict comprehension). */
  function Where(t: Table, keep: string -> bool): (r: Table)
    ensures |r| <= |t|
    ensures forall i :: 0 <= i < |r| ==> keep(r[i].0)
  {
    if t == [] then []
    else (if keep(t[0].0) then [t[0]] else []) + Where(t[1..], keep)
  }
}
