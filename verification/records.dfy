/** The records the upload controllers send to the registry and the discovery service,
    and the two naming rules they share: a shell is addressed by the base64url encoding
    of its id appended to a path, and a discovery entry pairs a name with the value
    "Asset_<name>_Value". */
module Records {
  import opened Wrappers
  import opened Json
  import opened Base64Url

  /** A `{name, value}` pair of the discovery service; either half may be null. */
  datatype SpecificAssetId = SpecificAssetId(name: Option<string>, value: Option<string>)

  datatype ProtocolInformation = ProtocolInformation(href: string, endpointProtocol: string, subprotocol: string)

  datatype Endpoint = Endpoint(protocolInformation: ProtocolInformation, interface: string)

  datatype Description = Description(language: string, text: string)

  datatype Administration = Administration(revision: string)

  /** A shell descriptor as posted to the registry. */
  datatype RegistryEntry = RegistryEntry(
    idShort: Option<string>,
    id: string,
    assetKind: Option<string>,
    administration: Option<Administration>,
    endpoints: seq<Endpoint>,
    description: seq<Description>)

  const ShellInterface := "https://admin-shell.io/aas/API/3/0/AasServiceSpecification/SSP-003"
  const ShellDescription := "Standardized digital representation of Murrelektroniks. It holds digital models of various aspects (submodels) and describes technical functionality exposed by them."

  /** The host and port under which a browser reaches the repository. */
  const ExternalHost := "localhost:8082"
  /** The host and port under which the services reach the repository. */
  const InternalHost := "aas-environment-v3:8081"

  /** The repository's shell collection, as the services reach it. */
  const ShellsUrl := "http://aas-environment-v3:8081/shells"
  /** The discovery service's link endpoint; the encoded shell id follows it. */
  const DiscoveryLinkPrefix := "http://aas-discovery-service:8081/lookup/shells/"

  /** `prefix` followed by the base64url encoding of `id`. */
  function EncodedPath(prefix: string, id: string): string {
    prefix + Base64UrlEncode(id)
  }

  /** The id an encoded path names, or None when `url` does not start with `prefix` or
      what follows is not the encoding of a string. */
  function DecodedPath(prefix: string, url: string): Option<string> {
    if |url| < |prefix| || url[..|prefix|] != prefix then None
    else match Base64UrlDecode(url[|prefix|..])
      case None => None
      case Some(bytes) => DecodeUtf8(bytes)
  }

  /** An encoded path names exactly the id it was made from. */
  lemma EncodedPathRoundTrip(prefix: string, id: string)
    ensures DecodedPath(prefix, EncodedPath(prefix, id)) == Some(id)
  {
    var url := EncodedPath(prefix, id);
    assert url[..|prefix|] == prefix;
    assert url[|prefix|..] == Base64UrlEncode(id);
    EncodingRoundTrip(id);
    Utf8RoundTrip(id);
  }

  /** Distinct ids give distinct paths under the same prefix. */
  lemma EncodedPathInjective(prefix: string, id1: string, id2: string)
    requires EncodedPath(prefix, id1) == EncodedPath(prefix, id2)
    ensures id1 == id2
  {
    EncodedPathRoundTrip(prefix, id1);
    EncodedPathRoundTrip(prefix, id2);
  }

  /** The shell endpoint prefix on a host: `http://<host>/shells/`. */
  function ShellsPrefix(host: string): string {
    "http://" + host + "/shells/"
  }

  /** The registry entry the controllers build for a shell: the id, idShort and assetKind
      are copied, the single endpoint points at the shell on `host` with protocol HTTP
      and subprotocol AAS, and an administration block is added when there is a revision.
      Encoding a null id throws. */
  function NewRegistryEntry(host: string, id: Option<string>, idShort: Option<string>,
                            assetKind: Option<string>, revision: Option<string>): (r: Result<RegistryEntry>)
    ensures r.Success? <==> id.Some?
  {
    if id.None? then Thrown
    else
      Success(RegistryEntry(
        idShort, id.value, assetKind,
        if revision.Some? then Some(Administration(revision.value)) else None,
        [Endpoint(ProtocolInformation(EncodedPath(ShellsPrefix(host), id.value), "HTTP", "AAS"), ShellInterface)],
        [Description("en-US", ShellDescription)]))
  }

  /** The entry's one endpoint names the shell it describes, on the given host, and the
      entry carries an administration block exactly when a revision was found. */
  lemma RegistryEntryNamesShell(host: string, id: string, idShort: Option<string>,
                                assetKind: Option<string>, revision: Option<string>)
    ensures var e := NewRegistryEntry(host, Some(id), idShort, assetKind, revision).value;
      && e.id == id && e.idShort == idShort && e.assetKind == assetKind
      && |e.endpoints| == 1
      && DecodedPath(ShellsPrefix(host), e.endpoints[0].protocolInformation.href) == Some(id)
      && (e.administration.Some? <==> revision.Some?)
      && (revision.Some? ==> e.administration == Some(Administration(revision.value)))
  {
    EncodedPathRoundTrip(ShellsPrefix(host), id);
  }

  /** The value a discovery entry pairs with `name`. */
  function AssetValue(name: string): string {
    "Asset_" + name + "_Value"
  }

  /** The name an entry value was made from, or None for a value of another shape. */
  function AssetName(value: string): Option<string> {
    if |value| < 12 || value[..6] != "Asset_" || value[|value| - 6..] != "_Value" then None
    else Some(value[6..|value| - 6])
  }

  /** The value gives its name back. */
  lemma AssetValueRoundTrip(name: string)
    ensures AssetName(AssetValue(name)) == Some(name)
  {
    var v := AssetValue(name);
    assert v[..6] == "Asset_";
    assert v[|v| - 6..] == "_Value";
    assert v[6..|v| - 6] == name;
  }

  /** The discovery entry built from one name: exactly one pair. */
  function DiscoveryEntry(name: string): (r: seq<SpecificAssetId>)
    ensures |r| == 1 && r[0].name == Some(name)
    ensures r[0].value.Some? && AssetName(r[0].value.value) == Some(name)
  {
    AssetValueRoundTrip(name);
    [SpecificAssetId(Some(name), Some(AssetValue(name)))]
  }

  /** `specificAssetIds.EnumerateArray().Select(id => new SpecificAssetId { Name = …,
      Value = … }).ToList()`: one pair per item, in order, a missing member giving null. */
  function SpecificAssetIdsOf(el: Json): (r: Result<seq<SpecificAssetId>>)
    ensures r.Success? ==> el.Arr? && |r.value| == |el.items|
    ensures r.Success? ==> forall i :: 0 <= i < |r.value| ==>
      Success(r.value[i].name) == StringMember(el.items[i], "name")
      && Success(r.value[i].value) == StringMember(el.items[i], "value")
    ensures el.Arr? ==> (r.Thrown? <==> exists i :: 0 <= i < |el.items| && ItemThrows(el.items[i]))
  {
    var items :- EnumerateArray(el);
    ReadSpecificAssetIds(items)
  }

  /** Reading the name or the value of this item throws. */
  predicate ItemThrows(item: Json) {
    StringMember(item, "name").Thrown? || StringMember(item, "value").Thrown?
  }

  function ReadSpecificAssetIds(items: seq<Json>): (r: Result<seq<SpecificAssetId>>)
    ensures r.Success? ==> |r.value| == |items|
    ensures r.Success? ==> forall i :: 0 <= i < |r.value| ==>
      Success(r.value[i].name) == StringMember(items[i], "name")
      && Success(r.value[i].value) == StringMember(items[i], "value")
    ensures r.Thrown? <==> exists i :: 0 <= i < |items| && ItemThrows(items[i])
    decreases |items|
  {
    if |items| == 0 then Success([])
    else
      var name :- StringMember(items[0], "name");
      var value :- StringMember(items[0], "value");
      var rest :- ReadSpecificAssetIds(items[1..]);
      assert forall i :: 1 <= i < |items| ==> items[i] == items[1..][i - 1];
      Success([SpecificAssetId(name, value)] + rest)
  }
}
