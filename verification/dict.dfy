/** The `Dictionary<string, string>` the match controller harvests properties into.
    A .NET dictionary that is only ever added to enumerates in insertion order, and
    the compatibility check enumerates it, so it is modelled as an association list
    kept in insertion order. A value may be null. */
module Dict {
  import opened Wrappers

  datatype Entry = Entry(key: string, value: Option<string>)

  type Dict = seq<Entry>

  /** No key is stored twice. */
  predicate DistinctKeys(d: Dict) {
    forall i, j :: 0 <= i < j < |d| ==> d[i].key != d[j].key
  }

  /** The keys of `d`. */
  function Keys(d: Dict): set<string> {
    set i | 0 <= i < |d| :: d[i].key
  }

  /** `d.TryGetValue(k, out v)`: the value stored under `k`, or None when `k` is absent. */
  function TryGetValue(d: Dict, k: string): (r: Option<Option<string>>)
    ensures r.None? <==> k !in Keys(d)
  {
    if |d| == 0 then None
    else if d[0].key == k then Some(d[0].value)
    else
      var r := TryGetValue(d[1..], k);
      KeysCons(d[0], d[1..]);
      assert [d[0]] + d[1..] == d;
      r
  }

  lemma KeysCons(e: Entry, d: Dict)
    ensures Keys([e] + d) == {e.key} + Keys(d)
  {
    var c := [e] + d;
    forall k | k in Keys(c)
      ensures k in {e.key} + Keys(d)
    {
      var i :| 0 <= i < |c| && c[i].key == k;
      if i > 0 {
        assert c[i] == d[i - 1];
      }
    }
    forall k | k in Keys(d)
      ensures k in Keys(c)
    {
      var i :| 0 <= i < |d| && d[i].key == k;
      assert c[i + 1] == d[i];
    }
    assert c[0] == e;
  }

  /** In a dictionary without repeated keys, every entry is what its key looks up. */
  lemma {:induction false} TryGetValueAt(d: Dict, i: int)
    requires DistinctKeys(d)
    requires 0 <= i < |d|
    ensures TryGetValue(d, d[i].key) == Some(d[i].value)
  {
    if i > 0 {
      assert d[1..][i - 1] == d[i];
      TryGetValueAt(d[1..], i - 1);
    }
  }

  /** What a key looks up is stored in some entry under that key. */
  lemma {:induction false} TryGetValueFound(d: Dict, k: string)
    requires TryGetValue(d, k).Some?
    ensures exists i :: 0 <= i < |d| && d[i] == Entry(k, TryGetValue(d, k).value)
  {
    if d[0].key != k {
      TryGetValueFound(d[1..], k);
      var i :| 0 <= i < |d[1..]| && d[1..][i] == Entry(k, TryGetValue(d, k).value);
      assert d[i + 1] == d[1..][i];
    } else {
      assert d[0] == Entry(k, TryGetValue(d, k).value);
    }
  }

  /** A dictionary without repeated keys has as many keys as entries (its Count). */
  lemma {:induction false} KeysCount(d: Dict)
    requires DistinctKeys(d)
    ensures |Keys(d)| == |d|
  {
    if |d| > 0 {
      KeysCount(d[1..]);
      KeysCons(d[0], d[1..]);
      assert [d[0]] + d[1..] == d;
      assert d[0].key !in Keys(d[1..]);
    }
  }

  /** `d[k] = v`: an existing key keeps its place and takes the new value; a new key is
      added at the end. */
  function Set(d: Dict, k: string, v: Option<string>): (r: Dict)
    ensures TryGetValue(r, k) == Some(v)
    ensures forall o :: o != k ==> TryGetValue(r, o) == TryGetValue(d, o)
  {
    if |d| == 0 then [Entry(k, v)]
    else if d[0].key == k then [Entry(k, v)] + d[1..]
    else [d[0]] + Set(d[1..], k, v)
  }

  /** A dictionary with a first entry has distinct keys exactly when the rest does and
      does not hold the first key. */
  lemma DistinctCons(e: Entry, d: Dict)
    ensures DistinctKeys([e] + d) <==> e.key !in Keys(d) && DistinctKeys(d)
  {
    var c := [e] + d;
    if DistinctKeys(c) {
      forall i, j | 0 <= i < j < |d| ensures d[i].key != d[j].key {
        assert c[i + 1] == d[i] && c[j + 1] == d[j];
      }
      forall i | 0 <= i < |d| ensures d[i].key != e.key {
        assert c[i + 1] == d[i] && c[0] == e;
      }
      assert e.key !in Keys(d) && DistinctKeys(d);
    }
    if e.key !in Keys(d) && DistinctKeys(d) {
      forall i, j | 0 <= i < j < |c| ensures c[i].key != c[j].key {
        assert c[j] == d[j - 1] && d[j - 1].key in Keys(d);
        if i > 0 {
          assert c[i] == d[i - 1];
        }
      }
      assert DistinctKeys(c);
    }
  }

  /** Setting a key adds it to the keys, and no key ends up stored twice. */
  lemma {:induction false} SetKeys(d: Dict, k: string, v: Option<string>)
    ensures Keys(Set(d, k, v)) == Keys(d) + {k}
    ensures DistinctKeys(d) ==> DistinctKeys(Set(d, k, v))
  {
    if |d| == 0 {
      DistinctCons(Entry(k, v), []);
    } else {
      assert [d[0]] + d[1..] == d;
      KeysCons(d[0], d[1..]);
      DistinctCons(d[0], d[1..]);
      if d[0].key == k {
        KeysCons(Entry(k, v), d[1..]);
        DistinctCons(Entry(k, v), d[1..]);
      } else {
        SetKeys(d[1..], k, v);
        KeysCons(d[0], Set(d[1..], k, v));
        DistinctCons(d[0], Set(d[1..], k, v));
      }
    }
  }
}
