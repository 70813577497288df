/** The two compatibility predicates of the match controller. Both compare two harvested
    dictionaries the same way: equal Count, then every entry of the first must be found in
    the second with an equal value, tested entry by entry in the first one's order. The
    test calls `Equals` on the second dictionary's value, so a null value there throws. */
module Compat {
  import opened Wrappers
  import opened Json
  import opened Dict
  import opened Harvest

  /** `a.All(kvp => b.TryGetValue(kvp.Key, out var v) && v.Equals(kvp.Value))` over the
      entries `es` of `a`: stops at the first false, and throws on a null `v`. */
  function AllFound(es: Dict, b: Dict): (r: Result<bool>)
    decreases |es|
  {
    if |es| == 0 then Success(true)
    else match TryGetValue(b, es[0].key)
      case None => Success(false)
      case Some(v) =>
        if v.None? then Thrown
        else if Some(v.value) != es[0].value then Success(false)
        else AllFound(es[1..], b)
  }

  /** The shared comparison: `a.Count == b.Count && a.All(...)`. It is true exactly when
      the counts agree and every entry of `a` is found in `b` with the same non-null
      value, and it throws only when `b` holds null under one of `a`'s keys. */
  function DictionariesMatch(a: Dict, b: Dict): (r: Result<bool>)
    ensures r == Success(true) <==>
      |a| == |b| && forall i :: 0 <= i < |a| ==> a[i].value.Some? && TryGetValue(b, a[i].key) == Some(a[i].value)
    ensures r.Thrown? ==> exists i :: 0 <= i < |a| && TryGetValue(b, a[i].key) == Some(None)
  {
    if |a| != |b| then Success(false)
    else
      AllFoundTrue(a, b);
      if AllFound(a, b).Thrown? then AllFoundThrows(a, b); Thrown else AllFound(a, b)
  }

  /** IsAdapterCompatibleWithArticle */
  function AdapterCompatible(article: Json, adapter: Json): Result<bool> {
    var mine :- TechnicalProperties(article);
    var theirs :- TechnicalProperties(adapter);
    DictionariesMatch(mine, theirs)
  }

  /** IsDeviceCompatibleWithAdapter */
  function DeviceCompatible(adapter: Json, device: Json): Result<bool> {
    var mine :- DeviceProperties(adapter);
    var theirs :- DeviceProperties(device);
    DictionariesMatch(mine, theirs)
  }

  /** No value of `d` is null. */
  predicate NoNulls(d: Dict) {
    forall i :: 0 <= i < |d| ==> d[i].value.Some?
  }

  /** Two dictionaries hold the same keys with the same values. */
  ghost predicate SameMapping(a: Dict, b: Dict) {
    forall k :: TryGetValue(a, k) == TryGetValue(b, k)
  }

  /** The loop says true exactly when every entry is found in `b` with the same,
      non-null value. */
  lemma {:induction false} AllFoundTrue(es: Dict, b: Dict)
    ensures AllFound(es, b) == Success(true) <==>
      forall i :: 0 <= i < |es| ==> es[i].value.Some? && TryGetValue(b, es[i].key) == Some(es[i].value)
    decreases |es|
  {
    if |es| > 0 {
      AllFoundTrue(es[1..], b);
      assert forall i :: 1 <= i < |es| ==> es[i] == es[1..][i - 1];
    }
  }

  /** The loop throws only on a key whose value in `b` is null. */
  lemma {:induction false} AllFoundThrows(es: Dict, b: Dict)
    requires AllFound(es, b).Thrown?
    ensures exists i :: 0 <= i < |es| && TryGetValue(b, es[i].key) == Some(None)
    decreases |es|
  {
    if TryGetValue(b, es[0].key) != Some(None) {
      AllFoundThrows(es[1..], b);
      var i :| 0 <= i < |es[1..]| && TryGetValue(b, es[1..][i].key) == Some(None);
      assert es[i + 1] == es[1..][i];
    }
  }

  /** Between dictionaries without repeated keys (what harvesting produces), the
      comparison says true exactly when both hold the same keys with the same values and
      none of those values is null. */
  lemma MatchIffSameMapping(a: Dict, b: Dict)
    requires DistinctKeys(a) && DistinctKeys(b)
    ensures DictionariesMatch(a, b) == Success(true) <==> SameMapping(a, b) && NoNulls(a)
  {
    AllFoundTrue(a, b);
    if DictionariesMatch(a, b) == Success(true) {
      assert Keys(a) <= Keys(b) by {
        forall k | k in Keys(a) ensures k in Keys(b) {
          var i :| 0 <= i < |a| && a[i].key == k;
          assert TryGetValue(b, a[i].key).Some?;
        }
      }
      KeysCount(a);
      KeysCount(b);
      assert Keys(a) == Keys(b) by {
        SubsetOfSameSize(Keys(a), Keys(b));
      }
      forall k ensures TryGetValue(a, k) == TryGetValue(b, k) {
        if k in Keys(a) {
          var i :| 0 <= i < |a| && a[i].key == k;
          TryGetValueAt(a, i);
        }
      }
    }
    if SameMapping(a, b) && NoNulls(a) {
      assert Keys(a) == Keys(b) by {
        forall k ensures k in Keys(a) <==> k in Keys(b) {
          assert TryGetValue(a, k) == TryGetValue(b, k);
        }
      }
      KeysCount(a);
      KeysCount(b);
      forall i | 0 <= i < |a|
        ensures a[i].value.Some? && TryGetValue(b, a[i].key) == Some(a[i].value)
      {
        TryGetValueAt(a, i);
        assert TryGetValue(a, a[i].key) == TryGetValue(b, a[i].key);
      }
    }
  }

  lemma SubsetOfSameSize(x: set<string>, y: set<string>)
    requires x <= y && |x| == |y|
    ensures x == y
  {
    if x != y {
      var e :| e in y && e !in x;
      assert x <= y - {e};
      assert |x| <= |y - {e}| by {
        assert y - {e} == x + ((y - {e}) - x);
      }
    }
  }

  /** A successful match is symmetric: swapping the dictionaries still says true. */
  lemma MatchSymmetric(a: Dict, b: Dict)
    requires DistinctKeys(a) && DistinctKeys(b)
    requires DictionariesMatch(a, b) == Success(true)
    ensures DictionariesMatch(b, a) == Success(true)
  {
    MatchIffSameMapping(a, b);
    MatchIffSameMapping(b, a);
    forall i | 0 <= i < |b| ensures b[i].value.Some? {
      TryGetValueAt(b, i);
      assert TryGetValue(a, b[i].key) == TryGetValue(b, b[i].key);
      assert b[i].key in Keys(a);
      var j :| 0 <= j < |a| && a[j].key == b[i].key;
      TryGetValueAt(a, j);
    }
  }

  /** The comparison throws only when the second dictionary holds a null value; when it
      holds none, the answer is whether the two are the same mapping. */
  lemma MatchWithoutNulls(a: Dict, b: Dict)
    requires DistinctKeys(a) && DistinctKeys(b)
    requires NoNulls(b)
    ensures DictionariesMatch(a, b) == Success(SameMapping(a, b) && NoNulls(a))
  {
    if DictionariesMatch(a, b).Thrown? {
      AllFoundThrows(a, b);
      var i :| 0 <= i < |a| && TryGetValue(b, a[i].key) == Some(None);
      TryGetValueFound(b, a[i].key);
      assert false;
    }
    MatchIffSameMapping(a, b);
    assert DictionariesMatch(a, b).Success?;
    assert DictionariesMatch(a, b).value == (SameMapping(a, b) && NoNulls(a));
  }

  /** Two shells that harvest nothing are compatible. */
  lemma EmptyDictionariesMatch()
    ensures DictionariesMatch([], []) == Success(true)
  {
  }

  /** A null value in the second dictionary under a key the first one tests first makes
      `Equals` throw, however the values compare. */
  lemma NullValueThrows(a: Dict, b: Dict)
    requires |a| == |b| && |a| > 0
    requires TryGetValue(b, a[0].key) == Some(None)
    ensures DictionariesMatch(a, b) == Thrown
  {
  }

  /** The article and adapter compare their technical data the same way, so adapter
      compatibility is symmetric too when it succeeds. */
  lemma AdapterCompatibleSymmetric(article: Json, adapter: Json)
    requires AdapterCompatible(article, adapter) == Success(true)
    ensures AdapterCompatible(adapter, article) == Success(true)
  {
    MatchSymmetric(TechnicalProperties(article).value, TechnicalProperties(adapter).value);
  }

  /** Device compatibility is symmetric when it succeeds. */
  lemma DeviceCompatibleSymmetric(adapter: Json, device: Json)
    requires DeviceCompatible(adapter, device) == Success(true)
    ensures DeviceCompatible(device, adapter) == Success(true)
  {
    MatchSymmetric(DeviceProperties(adapter).value, DeviceProperties(device).value);
  }

  /** Adapter compatibility holds exactly when article and adapter harvest the same
      technical values, none of them null. */
  lemma AdapterCompatibleIff(article: Json, adapter: Json)
    requires TechnicalProperties(article).Success? && TechnicalProperties(adapter).Success?
    ensures AdapterCompatible(article, adapter) == Success(true) <==>
      SameMapping(TechnicalProperties(article).value, TechnicalProperties(adapter).value)
      && NoNulls(TechnicalProperties(article).value)
  {
    MatchIffSameMapping(TechnicalProperties(article).value, TechnicalProperties(adapter).value);
  }

  /** Device compatibility holds exactly when adapter and device harvest the same
      connector and hardware values, none of them null. */
  lemma DeviceCompatibleIff(adapter: Json, device: Json)
    requires DeviceProperties(adapter).Success? && DeviceProperties(device).Success?
    ensures DeviceCompatible(adapter, device) == Success(true) <==>
      SameMapping(DeviceProperties(adapter).value, DeviceProperties(device).value)
      && NoNulls(DeviceProperties(adapter).value)
  {
    MatchIffSameMapping(DeviceProperties(adapter).value, DeviceProperties(device).value);
  }
}
