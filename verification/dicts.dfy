/** A Python `dict` of column names to rendered values: an association
    list kept in insertion order, with no key twice. The order matters
    because the SET clause lists columns in iteration order. */
module Dicts {

  type Entry = (string, string)

  predicate DistinctKeys(d: seq<Entry>) {
    forall i, j | 0 <= i < j < |d| :: d[i].0 != d[j].0
  }

  type Dict = d: seq<Entry> | DistinctKeys(d) witness []

  /** The keys in iteration order. */
  function Names(d: seq<Entry>): (r: seq<string>)
    ensures |r| == |d| && forall i | 0 <= i < |d| :: r[i] == d[i].0
  {
    seq(|d|, i requires 0 <= i < |d| => d[i].0)
  }

  function KeySet(d: seq<Entry>): set<string> {
    set i | 0 <= i < |d| :: d[i].0
  }

  /** The dict with `names[i]` bound to `values[i]`, in that order. */
  function Zip(names: seq<string>, values: seq<string>): (d: Dict)
    requires |names| == |values|
    requires forall i, j | 0 <= i < j < |names| :: names[i] != names[j]
    ensures |d| == |names| && forall i | 0 <= i < |d| :: d[i] == (names[i], values[i])
  {
    seq(|names|, i requires 0 <= i < |names| => (names[i], values[i]))
  }

  /** The dict seen as a finite map (forgetting the order). */
  function ToMap(d: Dict): (m: map<string, string>)
    ensures m.Keys == KeySet(d)
    ensures forall i | 0 <= i < |d| :: m[d[i].0] == d[i].1
  {
    if |d| == 0 then map[]
    else
      var p: Dict := d[..|d| - 1];
      var m := ToMap(p)[d[|d| - 1].0 := d[|d| - 1].1];
      assert KeySet(d) == KeySet(p) + {d[|d| - 1].0};
      m
  }

  /** `d[k] = v`: an existing key keeps its place and takes the new value,
      a new key is appended at the end. */
  function Put(d: Dict, k: string, v: string): (r: Dict)
    ensures ToMap(r) == ToMap(d)[k := v]
    ensures KeySet(r) == KeySet(d) + {k}
    ensures Names(r) == if k in KeySet(d) then Names(d) else Names(d) + [k]
    ensures k !in KeySet(d) ==> r == d + [(k, v)]
  {
    var r: Dict :=
      if k in KeySet(d) then seq(|d|, i requires 0 <= i < |d| => if d[i].0 == k then (k, v) else d[i])
      else d + [(k, v)];
    PutMap(d, k, v, r);
    r
  }

  lemma PutMap(d: Dict, k: string, v: string, r: Dict)
    requires k in KeySet(d) ==> |r| == |d| && forall i | 0 <= i < |d| :: r[i] == (if d[i].0 == k then (k, v) else d[i])
    requires k !in KeySet(d) ==> r == d + [(k, v)]
    ensures KeySet(r) == KeySet(d) + {k}
    ensures ToMap(r) == ToMap(d)[k := v]
  {
    if k in KeySet(d) {
      ReplaceMap(d, k, v, r);
    } else {
      AppendMap(d, k, v, r);
    }
  }

  lemma ReplaceMap(d: Dict, k: string, v: string, r: Dict)
    requires k in KeySet(d)
    requires |r| == |d| && forall i | 0 <= i < |d| :: r[i] == (if d[i].0 == k then (k, v) else d[i])
    ensures KeySet(r) == KeySet(d)
    ensures ToMap(r) == ToMap(d)[k := v]
  {
    assert forall i | 0 <= i < |d| :: r[i].0 == d[i].0;
    assert KeySet(r) == KeySet(d);
    var m := ToMap(d)[k := v];
    forall x | x in KeySet(r)
      ensures ToMap(r)[x] == m[x]
    {
      var i :| 0 <= i < |r| && r[i].0 == x;
    }
  }

  lemma AppendMap(d: Dict, k: string, v: string, r: Dict)
    requires k !in KeySet(d)
    requires r == d + [(k, v)]
    ensures KeySet(r) == KeySet(d) + {k}
    ensures ToMap(r) == ToMap(d)[k := v]
  {
    assert r[..|r| - 1] == d;
    assert r[|d|].0 == k;
    assert KeySet(r) == KeySet(d) + {k};
  }
}
