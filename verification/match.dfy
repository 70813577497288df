/** The match controller (`POST /AASSubmodelMatch/match`): for an article, a list of test
    adapters and a list of test devices, given by asset id, it reports every pair
    (adapter shell id, device shell id) such that the adapter is compatible with the
    article and the device with the adapter. Every shell document is fetched from the
    lookup endpoint; any exception turns the whole answer into a 500. */
module Match {
  import opened Wrappers
  import opened Json
  import opened Base64Url
  import opened Harvest
  import opened Compat
  import opened Http
  import opened Scanning

  const LookupPrefix := "http://aas-lookup-service:80/AASLookup/lookup?assetId="
  const LookupSuffix := "&submodels=true"

  /** The lookup endpoint as the controller uses it: the reply to a GET of a URL, and
      `JObject.Parse` of a text (None when the text is not JSON). The model takes the
      reply to depend on the URL alone, since every request is a GET; a device fetched
      again for a later adapter therefore gets the same reply as before. */
  datatype Lookup = Lookup(fetch: string -> Reply, parse: string -> Option<Json>)

  function LookupUrl(encoded: string): string {
    LookupPrefix + encoded + LookupSuffix
  }

  /** GetAasFromAssetId: a successful reply whose text parses to a JSON object; anything
      else throws (EnsureSuccessStatusCode, or JObject.Parse on bad JSON or a non-object). */
  function GetAas(env: Lookup, encoded: string): (r: Result<Json>)
    ensures r.Success? <==>
      var reply := env.fetch(LookupUrl(encoded));
      Succeeded(reply) && env.parse(reply.content).Some? && env.parse(reply.content).value.Obj?
    ensures r.Success? ==> r.value.Obj? && Some(r.value) == env.parse(env.fetch(LookupUrl(encoded)).content)
  {
    var reply := env.fetch(LookupUrl(encoded));
    if !Succeeded(reply) then Thrown
    else match env.parse(reply.content)
      case None => Thrown
      case Some(doc) => if doc.Obj? then Success(doc) else Thrown
  }

  /** `ids.ConvertAll(Base64UrlEncode)` */
  function EncodeAll(ids: seq<string>): (r: seq<string>)
    ensures |r| == |ids| && forall i :: 0 <= i < |ids| ==> r[i] == Base64UrlEncode(ids[i])
  {
    seq(|ids|, i requires 0 <= i < |ids| => Base64UrlEncode(ids[i]))
  }

  // ------------------------------------------------------------------ the steps

  /** One adapter of step 2: its document is fetched, and when it is compatible with
      the article, the id of its first shell is kept. */
  function AdapterStep(env: Lookup, article: Json, encoded: string): Result<Option<string>> {
    var adapter :- GetAas(env, encoded);
    var ok :- AdapterCompatible(article, adapter);
    if !ok then Success(None)
    else match ShellId(adapter)
      case Thrown => Thrown
      case Success(id) => Success(Some(id))
  }

  function AdapterSteps(env: Lookup, article: Json): string -> Result<Option<string>> {
    encoded => AdapterStep(env, article, encoded)
  }

  /** One device of the inner loop of step 3: its document is fetched, and when it is
      compatible with the adapter, the id of its first shell is kept. */
  function DeviceStep(env: Lookup, adapter: Json, encoded: string): Result<Option<string>> {
    var device :- GetAas(env, encoded);
    var ok :- DeviceCompatible(adapter, device);
    if !ok then Success(None)
    else match ShellId(device)
      case Thrown => Thrown
      case Success(id) => Success(Some(id))
  }

  function DeviceSteps(env: Lookup, adapter: Json): string -> Result<Option<string>> {
    encoded => DeviceStep(env, adapter, encoded)
  }

  /** A reported pair, with the positions of the adapter and the device in the request. */
  datatype Hit = Hit(adapter: nat, device: nat, adapterId: string, deviceId: string)

  /** The hits of one matching adapter against the devices found for it. */
  function HitsOf(a: Found<string>, ds: seq<Found<string>>): (r: seq<Hit>)
    ensures |r| == |ds|
  {
    seq(|ds|, k requires 0 <= k < |ds| => Hit(a.at, ds[k].at, a.item, ds[k].item))
  }

  /** One pass of the outer loop of step 3: the adapter's document is fetched again,
      by its shell id, and every device is tried against it. */
  function Row(env: Lookup, a: Found<string>, encodedDevices: seq<string>): Result<seq<Hit>> {
    var adapter :- GetAas(env, Base64UrlEncode(a.item));
    var ds :- Scan(DeviceSteps(env, adapter), encodedDevices, 0);
    Success(HitsOf(a, ds))
  }

  /** Step 3: the rows of the matching adapters, one after the other. */
  function Rows(env: Lookup, adapters: seq<Found<string>>, encodedDevices: seq<string>): Result<seq<Hit>>
    decreases |adapters|
  {
    if |adapters| == 0 then Success([])
    else
      var row :- Row(env, adapters[0], encodedDevices);
      var rest :- Rows(env, adapters[1..], encodedDevices);
      Success(row + rest)
  }

  /** Steps 1 to 3. A missing article id throws when it is encoded. */
  function MatchHits(env: Lookup, article: Option<string>, adapters: seq<string>, devices: seq<string>): Result<seq<Hit>> {
    if article.None? then Thrown
    else
      var articleAas :- GetAas(env, Base64UrlEncode(article.value));
      var matching :- Scan(AdapterSteps(env, articleAas), EncodeAll(adapters), 0);
      Rows(env, matching, EncodeAll(devices))
  }

  /** The pairs the controller reports. */
  function Pairs(hits: seq<Hit>): (r: seq<(string, string)>)
    ensures |r| == |hits|
  {
    seq(|hits|, k requires 0 <= k < |hits| => (hits[k].adapterId, hits[k].deviceId))
  }

  /** MatchSubmodels: Ok with the pairs, or 500 "An error occurred: <message>". */
  function MatchSubmodels(env: Lookup, article: Option<string>, adapters: seq<string>, devices: seq<string>)
    : (r: Response<seq<(string, string)>>)
    ensures r.Ok? || r == Status(500, WithException("An error occurred: "))
  {
    match MatchHits(env, article, adapters, devices)
    case Success(hits) => Ok(Pairs(hits))
    case Thrown => Status(500, WithException("An error occurred: "))
  }

  // --------------------------------------------------------------- properties

  /** The reference meaning of a reported pair: the adapter at position `h.adapter` is
      compatible with the article and its shell id is `h.adapterId`; the document found
      again under that shell id accepts the device at position `h.device`, whose shell
      id is `h.deviceId`. */
  predicate Matches(env: Lookup, article: Json, adapters: seq<string>, devices: seq<string>, h: Hit) {
    && h.adapter < |adapters| && h.device < |devices|
    && AdapterStep(env, article, Base64UrlEncode(adapters[h.adapter])) == Success(Some(h.adapterId))
    && GetAas(env, Base64UrlEncode(h.adapterId)).Success?
    && DeviceStep(env, GetAas(env, Base64UrlEncode(h.adapterId)).value, Base64UrlEncode(devices[h.device]))
       == Success(Some(h.deviceId))
  }

  /** Hits ordered by adapter position, then device position. */
  predicate LexIncreasing(hits: seq<Hit>) {
    forall i, j :: 0 <= i < j < |hits| ==>
      hits[i].adapter < hits[j].adapter || (hits[i].adapter == hits[j].adapter && hits[i].device < hits[j].device)
  }

  /** Each row holds hits of its own adapter, device positions increasing, and exactly
      the devices its document accepts. */
  lemma RowFacts(env: Lookup, a: Found<string>, encodedDevices: seq<string>)
    requires Row(env, a, encodedDevices).Success?
    ensures var row := Row(env, a, encodedDevices).value;
      var adapter := GetAas(env, Base64UrlEncode(a.item)).value;
      && |row| <= |encodedDevices|
      && LexIncreasing(row)
      && (forall k :: 0 <= k < |row| ==>
            && row[k].adapter == a.at && row[k].adapterId == a.item && row[k].device < |encodedDevices|
            && DeviceStep(env, adapter, encodedDevices[row[k].device]) == Success(Some(row[k].deviceId)))
      && (forall j :: 0 <= j < |encodedDevices| ==> DeviceStep(env, adapter, encodedDevices[j]).Success?)
      && (forall j :: 0 <= j < |encodedDevices| && DeviceStep(env, adapter, encodedDevices[j]).value.Some? ==>
            Hit(a.at, j, a.item, DeviceStep(env, adapter, encodedDevices[j]).value.value) in row)
  {
    var adapter := GetAas(env, Base64UrlEncode(a.item)).value;
    var steps := DeviceSteps(env, adapter);
    var ds := Scan(steps, encodedDevices, 0).value;
    ScanSound(steps, encodedDevices, 0);
    ScanIncreasing(steps, encodedDevices, 0);
    ScanSucceeds(steps, encodedDevices, 0);
    RowComplete(env, a, encodedDevices);
  }

  /** Every device the adapter's document accepts has its hit in the row. */
  lemma RowComplete(env: Lookup, a: Found<string>, encodedDevices: seq<string>)
    requires Row(env, a, encodedDevices).Success?
    ensures var row := Row(env, a, encodedDevices).value;
      var adapter := GetAas(env, Base64UrlEncode(a.item)).value;
      forall j ::
        && 0 <= j < |encodedDevices| && DeviceStep(env, adapter, encodedDevices[j]).Success?
        && DeviceStep(env, adapter, encodedDevices[j]).value.Some?
        ==> Hit(a.at, j, a.item, DeviceStep(env, adapter, encodedDevices[j]).value.value) in row
  {
    var adapter := GetAas(env, Base64UrlEncode(a.item)).value;
    forall j | 0 <= j < |encodedDevices| && DeviceStep(env, adapter, encodedDevices[j]).Success?
      && DeviceStep(env, adapter, encodedDevices[j]).value.Some?
      ensures Hit(a.at, j, a.item, DeviceStep(env, adapter, encodedDevices[j]).value.value) in Row(env, a, encodedDevices).value
    {
      RowHasDevice(env, a, encodedDevices, adapter, j);
    }
  }

  /** One accepted device's hit is in the row. */
  lemma RowHasDevice(env: Lookup, a: Found<string>, encodedDevices: seq<string>, adapter: Json, j: nat)
    requires Row(env, a, encodedDevices).Success?
    requires adapter == GetAas(env, Base64UrlEncode(a.item)).value
    requires j < |encodedDevices| && DeviceStep(env, adapter, encodedDevices[j]).Success?
    requires DeviceStep(env, adapter, encodedDevices[j]).value.Some?
    ensures Hit(a.at, j, a.item, DeviceStep(env, adapter, encodedDevices[j]).value.value) in Row(env, a, encodedDevices).value
  {
    var steps := DeviceSteps(env, adapter);
    var y := DeviceStep(env, adapter, encodedDevices[j]).value.value;
    assert steps(encodedDevices[j]) == Success(Some(y));
    ScanCompleteAt(steps, encodedDevices, j, y);
    HitsOfContains(a, Scan(steps, encodedDevices, 0).value, Found(j, y));
  }

  lemma HitsOfContains(a: Found<string>, ds: seq<Found<string>>, f: Found<string>)
    requires f in ds
    ensures Hit(a.at, f.at, a.item, f.item) in HitsOf(a, ds)
  {
    var k :| 0 <= k < |ds| && ds[k] == f;
    assert HitsOf(a, ds)[k] == Hit(a.at, f.at, a.item, f.item);
  }

  /** Every hit of step 3 comes from the row of one of the matching adapters. */
  lemma {:induction false} RowsSound(env: Lookup, adapters: seq<Found<string>>, encodedDevices: seq<string>)
    requires Rows(env, adapters, encodedDevices).Success?
    ensures var hits := Rows(env, adapters, encodedDevices).value;
      forall k :: 0 <= k < |hits| ==> exists i :: 0 <= i < |adapters| && FromRow(env, adapters[i], encodedDevices, hits[k])
    decreases |adapters|
  {
    if |adapters| > 0 {
      var row := Row(env, adapters[0], encodedDevices).value;
      var rest := Rows(env, adapters[1..], encodedDevices).value;
      RowsSound(env, adapters[1..], encodedDevices);
      var hits := row + rest;
      assert hits == Rows(env, adapters, encodedDevices).value;
      forall k | 0 <= k < |hits|
        ensures exists i :: 0 <= i < |adapters| && FromRow(env, adapters[i], encodedDevices, hits[k])
      {
        if k < |row| {
          assert hits[k] == row[k];
          assert FromRow(env, adapters[0], encodedDevices, hits[k]);
        } else {
          assert hits[k] == rest[k - |row|];
          var i :| 0 <= i < |adapters[1..]| && FromRow(env, adapters[1..][i], encodedDevices, rest[k - |row|]);
          assert adapters[i + 1] == adapters[1..][i];
        }
      }
    }
  }

  /** Step 3 reports at most as many hits as adapters times devices. */
  lemma {:induction false} RowsCount(env: Lookup, adapters: seq<Found<string>>, encodedDevices: seq<string>)
    requires Rows(env, adapters, encodedDevices).Success?
    ensures |Rows(env, adapters, encodedDevices).value| <= |adapters| * |encodedDevices|
    decreases |adapters|
  {
    if |adapters| > 0 {
      var n := |encodedDevices|;
      var rowLength: int := |Row(env, adapters[0], encodedDevices).value|;
      var restLength: int := |Rows(env, adapters[1..], encodedDevices).value|;
      assert rowLength <= n by {
        RowFacts(env, adapters[0], encodedDevices);
      }
      RowsCount(env, adapters[1..], encodedDevices);
      assert |Rows(env, adapters, encodedDevices).value| == rowLength + restLength;
      assert |adapters| * n == n + (|adapters| - 1) * n;
    }
  }

  /** The hit is in the (successful) row of adapter `a`. */
  predicate FromRow(env: Lookup, a: Found<string>, encodedDevices: seq<string>, h: Hit) {
    Row(env, a, encodedDevices).Success? && h in Row(env, a, encodedDevices).value
  }

  /** When the adapters' positions increase, the hits come out in adapter order and, for
      each adapter, in device order. */
  lemma {:induction false} RowsOrdered(env: Lookup, adapters: seq<Found<string>>, encodedDevices: seq<string>)
    requires Rows(env, adapters, encodedDevices).Success?
    requires Increasing(adapters)
    ensures LexIncreasing(Rows(env, adapters, encodedDevices).value)
    decreases |adapters|
  {
    if |adapters| > 0 {
      var row := Row(env, adapters[0], encodedDevices).value;
      var rest := Rows(env, adapters[1..], encodedDevices).value;
      RowFacts(env, adapters[0], encodedDevices);
      RowsSound(env, adapters[1..], encodedDevices);
      RowsOrdered(env, adapters[1..], encodedDevices);
      var hits := row + rest;
      assert hits == Rows(env, adapters, encodedDevices).value;
      forall k | 0 <= k < |rest| ensures rest[k].adapter > adapters[0].at {
        var i :| 0 <= i < |adapters[1..]| && FromRow(env, adapters[1..][i], encodedDevices, rest[k]);
        RowFacts(env, adapters[1..][i], encodedDevices);
        assert adapters[1..][i] == adapters[i + 1];
      }
      forall i, j | 0 <= i < j < |hits|
        ensures hits[i].adapter < hits[j].adapter || (hits[i].adapter == hits[j].adapter && hits[i].device < hits[j].device)
      {
        if j >= |row| {
          assert hits[j] == rest[j - |row|];
          if i >= |row| {
            assert hits[i] == rest[i - |row|];
          }
        }
      }
    }
  }

  /** Every row of a successful step 3 succeeds, and all its hits are reported. */
  lemma {:induction false} RowsComplete(env: Lookup, adapters: seq<Found<string>>, encodedDevices: seq<string>, i: nat)
    requires Rows(env, adapters, encodedDevices).Success?
    requires i < |adapters|
    ensures Row(env, adapters[i], encodedDevices).Success?
    ensures forall h :: h in Row(env, adapters[i], encodedDevices).value ==> h in Rows(env, adapters, encodedDevices).value
    decreases |adapters|
  {
    if i > 0 {
      assert adapters[i] == adapters[1..][i - 1];
      RowsComplete(env, adapters[1..], encodedDevices, i - 1);
    }
  }

  /** The article's document and the matching adapters of a successful match. */
  lemma MatchHitsSteps(env: Lookup, article: Option<string>, adapters: seq<string>, devices: seq<string>)
    requires MatchHits(env, article, adapters, devices).Success?
    ensures article.Some? && GetAas(env, Base64UrlEncode(article.value)).Success?
    ensures var articleAas := GetAas(env, Base64UrlEncode(article.value)).value;
      var matching := Scan(AdapterSteps(env, articleAas), EncodeAll(adapters), 0);
      && matching.Success?
      && MatchHits(env, article, adapters, devices) == Rows(env, matching.value, EncodeAll(devices))
  {
  }

  /** Every reported hit is a matching combination. */
  lemma MatchHitsSound(env: Lookup, article: Option<string>, adapters: seq<string>, devices: seq<string>, k: nat)
    requires MatchHits(env, article, adapters, devices).Success?
    requires k < |MatchHits(env, article, adapters, devices).value|
    ensures article.Some? && GetAas(env, Base64UrlEncode(article.value)).Success?
    ensures Matches(env, GetAas(env, Base64UrlEncode(article.value)).value, adapters, devices,
                    MatchHits(env, article, adapters, devices).value[k])
  {
    MatchHitsSteps(env, article, adapters, devices);
    var articleAas := GetAas(env, Base64UrlEncode(article.value)).value;
    var steps := AdapterSteps(env, articleAas);
    var encodedAdapters := EncodeAll(adapters);
    var encodedDevices := EncodeAll(devices);
    var matching := Scan(steps, encodedAdapters, 0).value;
    var hits := Rows(env, matching, encodedDevices).value;
    ScanSound(steps, encodedAdapters, 0);
    RowsSound(env, matching, encodedDevices);
    var i :| 0 <= i < |matching| && FromRow(env, matching[i], encodedDevices, hits[k]);
    RowFacts(env, matching[i], encodedDevices);
    assert steps(encodedAdapters[matching[i].at]) == Success(Some(matching[i].item));
  }

  /** Every matching combination is reported. */
  lemma MatchHitsComplete(env: Lookup, article: Option<string>, adapters: seq<string>, devices: seq<string>, h: Hit)
    requires MatchHits(env, article, adapters, devices).Success?
    requires article.Some? && GetAas(env, Base64UrlEncode(article.value)).Success?
    requires Matches(env, GetAas(env, Base64UrlEncode(article.value)).value, adapters, devices, h)
    ensures h in MatchHits(env, article, adapters, devices).value
  {
    MatchHitsSteps(env, article, adapters, devices);
    var articleAas := GetAas(env, Base64UrlEncode(article.value)).value;
    var steps := AdapterSteps(env, articleAas);
    var encodedAdapters := EncodeAll(adapters);
    var encodedDevices := EncodeAll(devices);
    var matching := Scan(steps, encodedAdapters, 0).value;
    assert steps(encodedAdapters[h.adapter]) == Success(Some(h.adapterId));
    ScanComplete(steps, encodedAdapters, 0, h.adapter);
    var i :| 0 <= i < |matching| && matching[i] == Found(h.adapter, h.adapterId);
    RowsComplete(env, matching, encodedDevices, i);
    RowFacts(env, matching[i], encodedDevices);
  }

  /** The hits of a successful match are ordered by adapter, then device position, and
      number at most |adapters| * |devices|. */
  lemma MatchHitsOrdered(env: Lookup, article: Option<string>, adapters: seq<string>, devices: seq<string>)
    requires MatchHits(env, article, adapters, devices).Success?
    ensures LexIncreasing(MatchHits(env, article, adapters, devices).value)
    ensures |MatchHits(env, article, adapters, devices).value| <= |adapters| * |devices|
  {
    MatchHitsSteps(env, article, adapters, devices);
    var articleAas := GetAas(env, Base64UrlEncode(article.value)).value;
    var steps := AdapterSteps(env, articleAas);
    var matching := Scan(steps, EncodeAll(adapters), 0).value;
    ScanSound(steps, EncodeAll(adapters), 0);
    ScanIncreasing(steps, EncodeAll(adapters), 0);
    RowsOrdered(env, matching, EncodeAll(devices));
    RowsCount(env, matching, EncodeAll(devices));
    MultiplyMonotone(|matching|, |adapters|, |devices|);
  }

  lemma MultiplyMonotone(a: nat, b: nat, c: nat)
    requires a <= b
    ensures a * c <= b * c
  {
  }

  /** A successful match reports exactly the pairs of the reference: every reported hit
      matches, every matching (adapter, device) combination is reported, the hits are
      ordered (so none is reported twice), and the response is Ok with their id pairs. */
  lemma MatchHitsExact(env: Lookup, article: Option<string>, adapters: seq<string>, devices: seq<string>)
    requires MatchHits(env, article, adapters, devices).Success?
    ensures article.Some? && GetAas(env, Base64UrlEncode(article.value)).Success?
    ensures var hits := MatchHits(env, article, adapters, devices).value;
      var articleAas := GetAas(env, Base64UrlEncode(article.value)).value;
      && (forall k :: 0 <= k < |hits| ==> Matches(env, articleAas, adapters, devices, hits[k]))
      && (forall h :: Matches(env, articleAas, adapters, devices, h) ==> h in hits)
      && LexIncreasing(hits)
      && MatchSubmodels(env, article, adapters, devices) == Ok(Pairs(hits))
  {
    MatchHitsSteps(env, article, adapters, devices);
    forall k | 0 <= k < |MatchHits(env, article, adapters, devices).value|
      ensures Matches(env, GetAas(env, Base64UrlEncode(article.value)).value, adapters, devices,
                      MatchHits(env, article, adapters, devices).value[k])
    {
      MatchHitsSound(env, article, adapters, devices, k);
    }
    forall h | Matches(env, GetAas(env, Base64UrlEncode(article.value)).value, adapters, devices, h)
      ensures h in MatchHits(env, article, adapters, devices).value
    {
      MatchHitsComplete(env, article, adapters, devices, h);
    }
    MatchHitsOrdered(env, article, adapters, devices);
  }

  /** An adapter whose step throws (its lookup fails, its data cannot be compared, or its
      document has no shell id) ends the match with the 500 answer. */
  lemma AdapterFailureIs500(env: Lookup, article: string, adapters: seq<string>, devices: seq<string>, i: nat)
    requires GetAas(env, Base64UrlEncode(article)).Success?
    requires i < |adapters|
    requires AdapterStep(env, GetAas(env, Base64UrlEncode(article)).value, Base64UrlEncode(adapters[i])).Thrown?
    ensures MatchSubmodels(env, Some(article), adapters, devices) == Status(500, WithException("An error occurred: "))
  {
    var steps := AdapterSteps(env, GetAas(env, Base64UrlEncode(article)).value);
    ScanSucceeds(steps, EncodeAll(adapters), 0);
    assert !steps(EncodeAll(adapters)[i]).Success?;
  }

  // ------------------------------------------------------------- the loops

  /** One turn of step 3 from adapter `j`. */
  lemma RowsStep(env: Lookup, adapters: seq<Found<string>>, encodedDevices: seq<string>, j: nat)
    requires j < |adapters|
    ensures Rows(env, adapters[j..], encodedDevices) ==
      match Row(env, adapters[j], encodedDevices)
      case Thrown => Thrown
      case Success(row) => Then(row, Rows(env, adapters[j + 1..], encodedDevices))
  {
    assert adapters[j..][0] == adapters[j];
    assert adapters[j..][1..] == adapters[j + 1..];
  }

  const Failed: Response<seq<(string, string)>> := Status(500, WithException("An error occurred: "))

  /** Step 2 as written: a foreach loop over the encoded adapter ids that collects the
      shell ids of the compatible adapters. */
  method MatchingAdapters(env: Lookup, articleAas: Json, encodedAdapters: seq<string>)
    returns (matching: Result<seq<string>>)
    ensures matching.Success? <==> Scan(AdapterSteps(env, articleAas), encodedAdapters, 0).Success?
    ensures matching.Success? ==> matching.value == Items(Scan(AdapterSteps(env, articleAas), encodedAdapters, 0).value)
  {
    ghost var steps := AdapterSteps(env, articleAas);
    var ids: seq<string> := [];
    ghost var found: seq<Found<string>> := [];
    var i := 0;
    assert encodedAdapters[0..] == encodedAdapters;
    ThenNil(Scan(steps, encodedAdapters, 0));
    while i < |encodedAdapters|
      invariant 0 <= i <= |encodedAdapters|
      invariant Scan(steps, encodedAdapters, 0) == Then(found, Scan(steps, encodedAdapters[i..], i))
      invariant ids == Items(found)
    {
      ScanStep(steps, encodedAdapters, i);
      var y := AdapterStep(env, articleAas, encodedAdapters[i]);
      assert y == steps(encodedAdapters[i]);
      if y.Thrown? {
        return Thrown;
      }
      if y.value.Some? {
        ThenThen(found, [Found(i, y.value.value)], Scan(steps, encodedAdapters[i + 1..], i + 1));
        ids := ids + [y.value.value];
        found := found + [Found(i, y.value.value)];
      } else {
        ThenThen(found, [], Scan(steps, encodedAdapters[i + 1..], i + 1));
        assert found + [] == found;
      }
      i := i + 1;
    }
    assert encodedAdapters[i..] == [];
    return Success(ids);
  }

  /** One pass of the outer loop of step 3 as written: the adapter's document is fetched
      by its shell id, then a nested foreach loop tries every device against it. */
  method DeviceRow(env: Lookup, adapterId: string, encodedDevices: seq<string>)
    returns (row: Result<seq<(string, string)>>)
    ensures forall at: nat :: row.Success? <==> Row(env, Found(at, adapterId), encodedDevices).Success?
    ensures forall at: nat :: row.Success? ==> row.value == Pairs(Row(env, Found(at, adapterId), encodedDevices).value)
  {
    ghost var adapter := Found(0, adapterId);
    var adapterAas := GetAas(env, Base64UrlEncode(adapterId));
    if adapterAas.Thrown? {
      return Thrown;
    }
    ghost var steps := DeviceSteps(env, adapterAas.value);
    var pairs: seq<(string, string)> := [];
    ghost var ds: seq<Found<string>> := [];
    var m := 0;
    assert encodedDevices[0..] == encodedDevices;
    ThenNil(Scan(steps, encodedDevices, 0));
    while m < |encodedDevices|
      invariant 0 <= m <= |encodedDevices|
      invariant Scan(steps, encodedDevices, 0) == Then(ds, Scan(steps, encodedDevices[m..], m))
      invariant pairs == Pairs(HitsOf(adapter, ds))
    {
      ScanStep(steps, encodedDevices, m);
      var y := DeviceStep(env, adapterAas.value, encodedDevices[m]);
      assert y == steps(encodedDevices[m]);
      if y.Thrown? {
        return Thrown;
      }
      if y.value.Some? {
        ThenThen(ds, [Found(m, y.value.value)], Scan(steps, encodedDevices[m + 1..], m + 1));
        HitsOfAppend(adapter, ds, Found(m, y.value.value));
        pairs := pairs + [(adapterId, y.value.value)];
        ds := ds + [Found(m, y.value.value)];
      } else {
        ThenThen(ds, [], Scan(steps, encodedDevices[m + 1..], m + 1));
        assert ds + [] == ds;
      }
      m := m + 1;
    }
    assert encodedDevices[m..] == [];
    forall at: nat ensures Pairs(HitsOf(Found(at, adapterId), ds)) == pairs {
      assert Pairs(HitsOf(Found(at, adapterId), ds)) == Pairs(HitsOf(adapter, ds));
    }
    return Success(pairs);
  }

  /** The outer loop of step 3 as written, over the shell ids of the matching adapters
      (`found` records their positions, which the reported pairs do not show). */
  method AllRows(env: Lookup, matching: seq<string>, ghost found: seq<Found<string>>, encodedDevices: seq<string>)
    returns (pairs: Result<seq<(string, string)>>)
    requires matching == Items(found)
    ensures pairs.Success? <==> Rows(env, found, encodedDevices).Success?
    ensures pairs.Success? ==> pairs.value == Pairs(Rows(env, found, encodedDevices).value)
  {
    var acc: seq<(string, string)> := [];
    ghost var hits: seq<Hit> := [];
    var j := 0;
    assert found[0..] == found;
    ThenNil(Rows(env, found, encodedDevices));
    while j < |matching|
      invariant 0 <= j <= |matching| == |found|
      invariant Rows(env, found, encodedDevices) == Then(hits, Rows(env, found[j..], encodedDevices))
      invariant acc == Pairs(hits)
    {
      RowsStep(env, found, encodedDevices, j);
      var row := DeviceRow(env, matching[j], encodedDevices);
      assert Found(found[j].at, matching[j]) == found[j];
      assert row.Success? <==> Row(env, found[j], encodedDevices).Success?;
      if row.Thrown? {
        return Thrown;
      }
      ghost var rowHits := Row(env, found[j], encodedDevices).value;
      ThenThen(hits, rowHits, Rows(env, found[j + 1..], encodedDevices));
      PairsConcat(hits, rowHits);
      acc := acc + row.value;
      hits := hits + rowHits;
      j := j + 1;
    }
    assert found[j..] == [];
    return Success(acc);
  }

  /** The action as written: step 1, the loop of step 2, then the loops of step 3; any
      exception leaves through the catch block. */
  method MatchSubmodelsLoops(env: Lookup, article: Option<string>, adapters: seq<string>, devices: seq<string>)
    returns (r: Response<seq<(string, string)>>)
    ensures r == MatchSubmodels(env, article, adapters, devices)
  {
    if article.None? {
      return Failed;
    }
    var encodedAdapters := EncodeAll(adapters);
    var encodedDevices := EncodeAll(devices);
    var articleAas := GetAas(env, Base64UrlEncode(article.value));
    MatchHitsCases(env, article.value, adapters, devices);
    if articleAas.Thrown? {
      return Failed;
    }
    var matching := MatchingAdapters(env, articleAas.value, encodedAdapters);
    if matching.Thrown? {
      return Failed;
    }
    ghost var found := Scan(AdapterSteps(env, articleAas.value), encodedAdapters, 0).value;
    var pairs := AllRows(env, matching.value, found, encodedDevices);
    if pairs.Thrown? {
      return Failed;
    }
    return Ok(pairs.value);
  }

  /** Steps 1 and 2 of a match, case by case. */
  lemma MatchHitsCases(env: Lookup, article: string, adapters: seq<string>, devices: seq<string>)
    ensures GetAas(env, Base64UrlEncode(article)).Thrown? ==> MatchHits(env, Some(article), adapters, devices).Thrown?
    ensures GetAas(env, Base64UrlEncode(article)).Success? ==>
      var matching := Scan(AdapterSteps(env, GetAas(env, Base64UrlEncode(article)).value), EncodeAll(adapters), 0);
      && (matching.Thrown? ==> MatchHits(env, Some(article), adapters, devices).Thrown?)
      && (matching.Success? ==> MatchHits(env, Some(article), adapters, devices) == Rows(env, matching.value, EncodeAll(devices)))
  {
  }

  lemma HitsOfAppend(a: Found<string>, ds: seq<Found<string>>, d: Found<string>)
    ensures Pairs(HitsOf(a, ds + [d])) == Pairs(HitsOf(a, ds)) + [(a.item, d.item)]
  {
    assert HitsOf(a, ds + [d]) == HitsOf(a, ds) + [Hit(a.at, d.at, a.item, d.item)];
    PairsConcat(HitsOf(a, ds), [Hit(a.at, d.at, a.item, d.item)]);
  }

  lemma PairsConcat(a: seq<Hit>, b: seq<Hit>)
    ensures Pairs(a + b) == Pairs(a) + Pairs(b)
  {
    assert forall k :: 0 <= k < |a + b| ==> Pairs(a + b)[k] == (Pairs(a) + Pairs(b))[k];
  }
}
