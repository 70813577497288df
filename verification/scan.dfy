/** A foreach loop that tries each item of a list, keeps what the item yields, if
    anything, and stops at the first exception. The match controller runs three such
    loops and the lookup controller one. */
module Scanning {
  import opened Wrappers

  /** An item a scan kept, with its position in the scanned list. */
  datatype Found<+Y> = Found(at: nat, item: Y)

  /** A foreach loop that keeps what `step` yields for each item, in order; the first
      step that throws ends the loop. Positions count from `base`. */
  function Scan<X, Y>(step: X -> Result<Option<Y>>, xs: seq<X>, base: nat): Result<seq<Found<Y>>>
    decreases |xs|
  {
    if |xs| == 0 then Success([])
    else
      var y :- step(xs[0]);
      var rest :- Scan(step, xs[1..], base + 1);
      Success((if y.Some? then [Found(base, y.value)] else []) + rest)
  }

  /** Positions strictly increase along `fs`. */
  predicate Increasing<Y>(fs: seq<Found<Y>>) {
    forall i, j :: 0 <= i < j < |fs| ==> fs[i].at < fs[j].at
  }

  /** A scan succeeds exactly when no step throws. */
  lemma {:induction false} ScanSucceeds<X, Y>(step: X -> Result<Option<Y>>, xs: seq<X>, base: nat)
    ensures Scan(step, xs, base).Success? <==> forall i :: 0 <= i < |xs| ==> step(xs[i]).Success?
    decreases |xs|
  {
    if |xs| > 0 {
      ScanSucceeds(step, xs[1..], base + 1);
      assert forall i :: 1 <= i < |xs| ==> xs[i] == xs[1..][i - 1];
    }
  }

  /** Every item a successful scan keeps is the yield of the item at its position. */
  lemma {:induction false} ScanSound<X, Y>(step: X -> Result<Option<Y>>, xs: seq<X>, base: nat)
    requires Scan(step, xs, base).Success?
    ensures var fs := Scan(step, xs, base).value;
      && |fs| <= |xs|
      && forall k :: 0 <= k < |fs| ==>
           base <= fs[k].at < base + |xs| && step(xs[fs[k].at - base]) == Success(Some(fs[k].item))
    decreases |xs|
  {
    if |xs| > 0 {
      var y := step(xs[0]).value;
      var rest := Scan(step, xs[1..], base + 1).value;
      ScanSound(step, xs[1..], base + 1);
      var head: seq<Found<Y>> := if y.Some? then [Found(base, y.value)] else [];
      var fs := head + rest;
      assert fs == Scan(step, xs, base).value;
      forall k | 0 <= k < |fs|
        ensures base <= fs[k].at < base + |xs| && step(xs[fs[k].at - base]) == Success(Some(fs[k].item))
      {
        if k >= |head| {
          assert fs[k] == rest[k - |head|];
          assert xs[fs[k].at - base] == xs[1..][fs[k].at - (base + 1)];
        }
      }
    }
  }

  /** A successful scan keeps items in the order of their positions. */
  lemma {:induction false} ScanIncreasing<X, Y>(step: X -> Result<Option<Y>>, xs: seq<X>, base: nat)
    requires Scan(step, xs, base).Success?
    ensures Increasing(Scan(step, xs, base).value)
    decreases |xs|
  {
    if |xs| > 0 {
      var y := step(xs[0]).value;
      var rest := Scan(step, xs[1..], base + 1).value;
      ScanIncreasing(step, xs[1..], base + 1);
      ScanSound(step, xs[1..], base + 1);
      var head: seq<Found<Y>> := if y.Some? then [Found(base, y.value)] else [];
      var fs := head + rest;
      assert fs == Scan(step, xs, base).value;
      forall i, j | 0 <= i < j < |fs| ensures fs[i].at < fs[j].at {
        assert fs[j] == rest[j - |head|];
        if i >= |head| {
          assert fs[i] == rest[i - |head|];
        }
      }
    }
  }

  /** Every item whose step yields something is kept by a successful scan. */
  lemma {:induction false} ScanComplete<X, Y>(step: X -> Result<Option<Y>>, xs: seq<X>, base: nat, i: nat)
    requires Scan(step, xs, base).Success?
    requires i < |xs| && step(xs[i]).Success? && step(xs[i]).value.Some?
    ensures Found(base + i, step(xs[i]).value.value) in Scan(step, xs, base).value
    decreases |xs|
  {
    var y := step(xs[0]).value;
    var rest := Scan(step, xs[1..], base + 1).value;
    var head: seq<Found<Y>> := if y.Some? then [Found(base, y.value)] else [];
    var fs := head + rest;
    assert fs == Scan(step, xs, base).value;
    if i > 0 {
      assert xs[i] == xs[1..][i - 1];
      ScanComplete(step, xs[1..], base + 1, i - 1);
      var k :| 0 <= k < |rest| && rest[k] == Found(base + 1 + (i - 1), step(xs[1..][i - 1]).value.value);
      assert fs[|head| + k] == rest[k];
    } else {
      assert fs[0] == Found(base, y.value);
    }
  }

  /** ScanComplete from the start of the sequence, for a step known to keep `y` at `i`. */
  lemma ScanCompleteAt<X, Y>(step: X -> Result<Option<Y>>, xs: seq<X>, i: nat, y: Y)
    requires Scan(step, xs, 0).Success?
    requires i < |xs| && step(xs[i]) == Success(Some(y))
    ensures Found(i, y) in Scan(step, xs, 0).value
  {
    ScanComplete(step, xs, 0, i);
  }

  /** Prepends `acc` to a successful result. */
  function Then<T>(acc: seq<T>, r: Result<seq<T>>): (out: Result<seq<T>>)
    ensures out.Success? <==> r.Success?
    ensures out.Success? ==> out.value == acc + r.value
  {
    match r
    case Success(v) => Success(acc + v)
    case Thrown => Thrown
  }

  lemma ThenThen<T>(a: seq<T>, b: seq<T>, r: Result<seq<T>>)
    ensures Then(a, Then(b, r)) == Then(a + b, r)
  {
    if r.Success? {
      assert a + (b + r.value) == (a + b) + r.value;
    }
  }

  lemma ThenNil<T>(r: Result<seq<T>>)
    ensures Then([], r) == r
  {
    if r.Success? {
      assert [] + r.value == r.value;
    }
  }

  /** One turn of a scan from position `i`. */
  lemma ScanStep<X, Y>(step: X -> Result<Option<Y>>, xs: seq<X>, i: nat)
    requires i < |xs|
    ensures Scan(step, xs[i..], i) ==
      match step(xs[i])
      case Thrown => Thrown
      case Success(y) => Then(if y.Some? then [Found(i, y.value)] else [], Scan(step, xs[i + 1..], i + 1))
  {
    assert xs[i..][0] == xs[i];
    assert xs[i..][1..] == xs[i + 1..];
  }

  /** The kept items without their positions. */
  function Items<Y>(fs: seq<Found<Y>>): (r: seq<Y>)
    ensures |r| == |fs| && forall k :: 0 <= k < |fs| ==> r[k] == fs[k].item
  {
    seq(|fs|, k requires 0 <= k < |fs| => fs[k].item)
  }
}
