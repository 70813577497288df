/** The lookup controller (`GET /AASLookup/lookup?assetId=…`): it asks the discovery
    service for the shells linked to an asset id, asks the registry for each shell's
    descriptor, and fetches each shell from the first endpoint the descriptor names,
    rewritten from the external to the internal host name. */
module Lookup {
  import opened Wrappers
  import opened Strings
  import opened Base64Url
  import opened Records
  import opened Http
  import opened Scanning

  const DiscoveryPrefix := "http://aas-discovery-service:8081/lookup/shells?assetIds="
  const DescriptorPrefix := "http://aas-registry-v3:8080/api/v3.0/shell-descriptors/"
  const MissingAssetId := "asset-id query parameter is required"

  /** The part of a deserialised registry descriptor the controller reads; None stands
      for a JSON null or a missing member. */
  datatype DescriptorDto = DescriptorDto(endpoints: Option<seq<Option<EndpointDto>>>)
  datatype EndpointDto = EndpointDto(protocolInformation: Option<ProtocolInformationDto>)
  datatype ProtocolInformationDto = ProtocolInformationDto(href: Option<string>)

  /** The services and the deserialisers the controller depends on. The model takes a
      reply to depend on the URL alone: every request is a GET, and the controller's
      result is stated per fetched URL. This is an abstraction: a second fetch of the
      same URL cannot fail where the first one succeeded. Each deserialiser answers Thrown for text
      that is not valid JSON of its type and None for the JSON literal null; `discovery`
      also answers None when the document's `result` list is null. Shell documents are of
      an arbitrary type `D`, which the controller passes through unread. */
  datatype Services<D> = Services(
    fetch: string -> Reply,
    discovery: string -> Result<Option<seq<Option<string>>>>,
    descriptor: string -> Result<Option<DescriptorDto>>,
    shell: string -> Result<Option<D>>)

  /** A result together with the requests sent to compute it. */
  datatype Traced<+T> = Traced(result: Result<T>, sent: seq<Request>)

  function GetRequest(url: string): Request {
    Request(GET, url, NoBody)
  }

  /** ConvertToInternalUrl: every occurrence of the external host and port replaced.
      Whatever the URL, none is left afterwards: the internal host has no 'l' to start a
      new occurrence, and cannot begin inside the external one. */
  function ConvertToInternalUrl(url: string): (r: string)
    ensures !Contains(r, ExternalHost)
  {
    assert forall i :: 0 <= i < |InternalHost| ==> InternalHost[i] != 'l';
    assert forall j :: 0 <= j < |ExternalHost[1..]| ==> NoStartAt(ExternalHost[1..], InternalHost, j);
    ReplaceLeavesNoOccurrence(url, ExternalHost, InternalHost);
    ReplaceAll(url, ExternalHost, InternalHost)
  }

  /** `Endpoints.FirstOrDefault()?.ProtocolInformation?.Href` of a descriptor with at
      least one endpoint. */
  function FirstHref(endpoints: seq<Option<EndpointDto>>): Option<string>
    requires |endpoints| > 0
  {
    match endpoints[0]
    case None => None
    case Some(e) =>
      match e.protocolInformation
      case None => None
      case Some(p) => p.href
  }

  /** ASCII upper-case letters in lower case, every other character as it is. */
  function LowerAscii(c: char): char {
    if 'A' <= c <= 'Z' then (c as int + 32) as char else c
  }

  /** `url` starts with `scheme` followed by "://", the scheme compared without case. */
  predicate HasScheme(url: string, scheme: string) {
    && |url| >= |scheme| + 3
    && (forall i :: 0 <= i < |scheme| ==> LowerAscii(url[i]) == scheme[i])
    && url[|scheme|..|scheme| + 3] == "://"
  }

  /** A URL an HttpClient without a base address can send: an absolute http or https URI.
      Any other text (empty, relative, or with another scheme) makes the client throw an
      InvalidOperationException or NotSupportedException before anything is sent. */
  predicate SendableUrl(url: string) {
    HasScheme(url, "http") || HasScheme(url, "https")
  }

  /** FetchAASData: only an HttpRequestException is caught, so a refused request or an
      unsuccessful status gives null; a URL the client cannot send, any other exception of
      the send, and a document the deserialiser rejects all escape. */
  function FetchAasData<D>(svc: Services<D>, url: string): (r: Result<Option<D>>)
    ensures !SendableUrl(url) || svc.fetch(url).Escaped? ==> r.Thrown?
    ensures SendableUrl(url) && (svc.fetch(url).Refused? || (svc.fetch(url).Answered? && !IsSuccessStatusCode(svc.fetch(url).status))) ==>
      r == Success(None)
    ensures SendableUrl(url) && Succeeded(svc.fetch(url)) ==> r == svc.shell(svc.fetch(url).content)
  {
    if !SendableUrl(url) then Thrown
    else
      var reply := svc.fetch(url);
      if reply.Escaped? then Thrown
      else if !Succeeded(reply) then Success(None)
      else svc.shell(reply.content)
  }

  /** The requests a turn sends: the descriptor's, then the shell's when its URL can be
      sent at all. */
  function TurnRequests(descriptorUrl: string, shellUrl: string): seq<Request> {
    [GetRequest(descriptorUrl)] + if SendableUrl(shellUrl) then [GetRequest(shellUrl)] else []
  }

  /** One turn of the registry loop: None when the descriptor has no endpoints (the id is
      skipped), else the shell fetched from the first endpoint. A null id, a failed
      registry request, a null descriptor, a null href and a failed shell fetch other than
      an HttpRequestException all throw. */
  function ShellOf<D>(svc: Services<D>, id: Option<string>): (r: Traced<Option<Option<D>>>)
    ensures id.None? ==> r == Traced(Thrown, [])
    ensures id.Some? ==> 1 <= |r.sent| <= 2 && r.sent[0] == GetRequest(DescriptorPrefix + Base64UrlEncode(id.value))
    ensures r.result == Success(None) ==> |r.sent| == 1
    ensures r.result.Success? && r.result.value.Some? ==> |r.sent| == 2
    ensures |r.sent| == 2 ==>
      r.sent[1] == GetRequest(r.sent[1].url) && SendableUrl(r.sent[1].url) && !Contains(r.sent[1].url, ExternalHost)
  {
    if id.None? then Traced(Thrown, [])
    else
      var url := DescriptorPrefix + Base64UrlEncode(id.value);
      var reply := svc.fetch(url);
      if !Succeeded(reply) then Traced(Thrown, [GetRequest(url)])
      else match svc.descriptor(reply.content)
        case Thrown => Traced(Thrown, [GetRequest(url)])
        case Success(None) => Traced(Thrown, [GetRequest(url)])
        case Success(Some(d)) =>
          if d.endpoints.None? || |d.endpoints.value| == 0 then Traced(Success(None), [GetRequest(url)])
          else match FirstHref(d.endpoints.value)
            case None => Traced(Thrown, [GetRequest(url)])
            case Some(href) =>
              var internal := ConvertToInternalUrl(href);
              match FetchAasData(svc, internal)
              case Thrown => Traced(Thrown, TurnRequests(url, internal))
              case Success(data) => Traced(Success(Some(data)), TurnRequests(url, internal))
  }

  function ShellSteps<D>(svc: Services<D>): Option<string> -> Result<Option<Option<D>>> {
    id => ShellOf(svc, id).result
  }

  /** The registry loop over the discovered ids, in order: the shells the turns keep,
      and the requests of every turn up to the first one that throws. */
  function Shells<D>(svc: Services<D>, ids: seq<Option<string>>): Traced<seq<Option<D>>> {
    Traced(MapItems(Scan(ShellSteps(svc), ids, 0)), SentUntilFailure(svc, ids))
  }

  function SentUntilFailure<D>(svc: Services<D>, ids: seq<Option<string>>): seq<Request>
    decreases |ids|
  {
    if |ids| == 0 then []
    else
      var one := ShellOf(svc, ids[0]);
      one.sent + if one.result.Thrown? then [] else SentUntilFailure(svc, ids[1..])
  }

  /** The items of a successful scan. */
  function MapItems<Y>(r: Result<seq<Found<Y>>>): (out: Result<seq<Y>>)
    ensures out.Success? <==> r.Success?
    ensures out.Success? ==> out.value == Items(r.value)
  {
    if r.Success? then Success(Items(r.value)) else Thrown
  }

  /** LookupAASByAssetId. */
  function LookupAas<D>(svc: Services<D>, assetId: Option<string>): (r: Run<seq<Option<D>>>)
    ensures r.outcome.Success? ==> r.outcome.value.Ok? || r.outcome.value == BadRequest(Text(MissingAssetId))
  {
    if IsNullOrEmpty(assetId) then Run(Success(BadRequest(Text(MissingAssetId))), [])
    else
      var discovery := GetRequest(DiscoveryPrefix + assetId.value);
      var reply := svc.fetch(discovery.url);
      if !Succeeded(reply) then Run(Thrown, [discovery])
      else match svc.discovery(reply.content)
        case Thrown => Run(Thrown, [discovery])
        case Success(None) => Run(Thrown, [discovery])
        case Success(Some(ids)) =>
          var shells := Shells(svc, ids);
          Run(if shells.result.Success? then Success(Ok(shells.result.value)) else Thrown, [discovery] + shells.sent)
  }

  // --------------------------------------------------------------- properties

  /** A missing or empty asset id is the only way to get the 400 answer, and it sends no
      request at all. */
  lemma BadRequestIffNoAssetId<D>(svc: Services<D>, assetId: Option<string>)
    ensures LookupAas(svc, assetId).outcome == Success(BadRequest(Text(MissingAssetId))) <==> IsNullOrEmpty(assetId)
    ensures IsNullOrEmpty(assetId) ==> LookupAas(svc, assetId).sent == []
    ensures !IsNullOrEmpty(assetId) ==> |LookupAas(svc, assetId).sent| > 0
  {
  }

  /** Otherwise the first request asks the discovery service, with the asset id placed in
      the query string as it came, not encoded. */
  lemma DiscoveryComesFirst<D>(svc: Services<D>, assetId: string)
    requires |assetId| > 0
    ensures LookupAas(svc, Some(assetId)).sent[0] == GetRequest(DiscoveryPrefix + assetId)
    ensures Succeeded(svc.fetch(DiscoveryPrefix + assetId)) || LookupAas(svc, Some(assetId)).outcome.Thrown?
  {
  }

  /** Once the discovery service has answered the ids, the lookup succeeds exactly when
      the registry loop does, and then answers the entries that loop keeps. */
  lemma LookupAnswersShells<D>(svc: Services<D>, assetId: string, ids: seq<Option<string>>)
    requires |assetId| > 0
    requires Succeeded(svc.fetch(DiscoveryPrefix + assetId))
    requires svc.discovery(svc.fetch(DiscoveryPrefix + assetId).content) == Success(Some(ids))
    ensures LookupAas(svc, Some(assetId)).outcome.Success? <==> Scan(ShellSteps(svc), ids, 0).Success?
    ensures Scan(ShellSteps(svc), ids, 0).Success? ==>
      LookupAas(svc, Some(assetId)).outcome == Success(Ok(Items(Scan(ShellSteps(svc), ids, 0).value)))
  {
  }

  /** The registry loop answers one entry per discovered id whose descriptor lists an
      endpoint, in discovery order: every entry is the shell of such an id, every such id
      gets its entry, and ids whose descriptor has no endpoint are skipped. */
  lemma ShellsKept<D>(svc: Services<D>, ids: seq<Option<string>>)
    requires Scan(ShellSteps(svc), ids, 0).Success?
    ensures var found := Scan(ShellSteps(svc), ids, 0).value;
      && |found| <= |ids|
      && Increasing(found)
      && (forall k :: 0 <= k < |found| ==> found[k].at < |ids| && ShellOf(svc, ids[found[k].at]).result == Success(Some(found[k].item)))
      && (forall i :: 0 <= i < |ids| ==> ShellOf(svc, ids[i]).result.Success?)
      && (forall i :: 0 <= i < |ids| && ShellOf(svc, ids[i]).result.value.Some? ==>
            Found(i, ShellOf(svc, ids[i]).result.value.value) in found)
  {
    ShellsKeptSound(svc, ids);
    ShellsKeptComplete(svc, ids);
  }

  /** Every entry the registry loop keeps is the shell of the id it was found at, in
      increasing order of ids. */
  lemma ShellsKeptSound<D>(svc: Services<D>, ids: seq<Option<string>>)
    requires Scan(ShellSteps(svc), ids, 0).Success?
    ensures var found := Scan(ShellSteps(svc), ids, 0).value;
      && |found| <= |ids|
      && Increasing(found)
      && (forall k :: 0 <= k < |found| ==> found[k].at < |ids| && ShellOf(svc, ids[found[k].at]).result == Success(Some(found[k].item)))
  {
    var steps := ShellSteps(svc);
    ScanSound(steps, ids, 0);
    ScanIncreasing(steps, ids, 0);
    var found := Scan(steps, ids, 0).value;
    forall k | 0 <= k < |found|
      ensures ShellOf(svc, ids[found[k].at]).result == Success(Some(found[k].item))
    {
      StepIsShellOf(svc, ids[found[k].at]);
    }
  }

  /** Every turn of a loop that goes through succeeds, and every id whose turn keeps an
      entry has it in the loop's answer. */
  lemma ShellsKeptComplete<D>(svc: Services<D>, ids: seq<Option<string>>)
    requires Scan(ShellSteps(svc), ids, 0).Success?
    ensures forall i :: 0 <= i < |ids| ==> ShellOf(svc, ids[i]).result.Success?
    ensures forall i :: 0 <= i < |ids| && ShellOf(svc, ids[i]).result.value.Some? ==>
      Found(i, ShellOf(svc, ids[i]).result.value.value) in Scan(ShellSteps(svc), ids, 0).value
  {
    var steps := ShellSteps(svc);
    ScanSucceeds(steps, ids, 0);
    forall i | 0 <= i < |ids| ensures ShellOf(svc, ids[i]).result.Success? {
      StepIsShellOf(svc, ids[i]);
    }
    forall i | 0 <= i < |ids| && ShellOf(svc, ids[i]).result.value.Some?
      ensures Found(i, ShellOf(svc, ids[i]).result.value.value) in Scan(steps, ids, 0).value
    {
      StepIsShellOf(svc, ids[i]);
      ScanCompleteAt(steps, ids, i, ShellOf(svc, ids[i]).result.value.value);
    }
  }

  /** A step of the loop is the turn's result. */
  lemma StepIsShellOf<D>(svc: Services<D>, id: Option<string>)
    ensures ShellSteps(svc)(id) == ShellOf(svc, id).result
  {
  }

  /** An id is skipped exactly when its descriptor lists no endpoint; when it lists one,
      its first href, rewritten to the internal host, is a URL the client can send and
      whose fetch did not escape, and the entry is null exactly when the shell request is
      refused or answers an unsuccessful status, or the shell document is the literal
      null. */
  lemma ShellOfEntry<D>(svc: Services<D>, id: string)
    requires ShellOf(svc, Some(id)).result.Success?
    ensures var reply := svc.fetch(DescriptorPrefix + Base64UrlEncode(id));
      && Succeeded(reply)
      && svc.descriptor(reply.content).Success? && svc.descriptor(reply.content).value.Some?
      && var d := svc.descriptor(reply.content).value.value;
         && (ShellOf(svc, Some(id)).result.value.None? <==> d.endpoints.None? || |d.endpoints.value| == 0)
         && (ShellOf(svc, Some(id)).result.value.Some? ==>
               && FirstHref(d.endpoints.value).Some?
               && var url := ConvertToInternalUrl(FirstHref(d.endpoints.value).value);
               && SendableUrl(url) && !svc.fetch(url).Escaped?
               && (ShellOf(svc, Some(id)).result.value.value.None? <==>
                     !Succeeded(svc.fetch(url)) || svc.shell(svc.fetch(url).content) == Success(None)))
  {
  }

  /** An endpoint whose href, once rewritten, is not an absolute http or https URL (an
      empty or a relative href, say) is not caught: the turn throws after the descriptor
      request, and so does the whole lookup. */
  lemma UnsendableHrefEscapes<D>(svc: Services<D>, id: string, href: string)
    requires Succeeded(svc.fetch(DescriptorPrefix + Base64UrlEncode(id)))
    requires var d := svc.descriptor(svc.fetch(DescriptorPrefix + Base64UrlEncode(id)).content);
      && d.Success? && d.value.Some? && d.value.value.endpoints.Some?
      && |d.value.value.endpoints.value| > 0
      && FirstHref(d.value.value.endpoints.value) == Some(href)
    requires !SendableUrl(ConvertToInternalUrl(href))
    ensures ShellOf(svc, Some(id)) == Traced(Thrown, [GetRequest(DescriptorPrefix + Base64UrlEncode(id))])
  {
  }

  /** An example for two concrete hrefs, beside the all-inputs `UnsendableHrefEscapes`:
      the empty href and a relative one are not URLs the client can send, whatever the
      rewrite does to them. */
  lemma EmptyAndRelativeHrefsUnsendable()
    ensures !SendableUrl(ConvertToInternalUrl(""))
    ensures !SendableUrl(ConvertToInternalUrl("shells/x"))
  {
    ReplaceWithoutOccurrence("", ExternalHost, InternalHost);
    assert !Contains("shells/x", ExternalHost);
    ReplaceWithoutOccurrence("shells/x", ExternalHost, InternalHost);
    assert !HasScheme("shells/x", "http") by {
      assert "shells/x"[4..7][0] == 'l';
    }
    assert !HasScheme("shells/x", "https") by {
      assert "shells/x"[5..8][0] == 's';
    }
  }

  /** A failing registry request is not caught: the whole lookup fails. A failing shell
      request is caught: the shell's entry is null. */
  lemma RegistryFailureEscapes<D>(svc: Services<D>, id: string)
    requires !Succeeded(svc.fetch(DescriptorPrefix + Base64UrlEncode(id)))
    ensures ShellOf(svc, Some(id)).result.Thrown?
  {
  }

  // ------------------------------------------------------------ host rewrite

  /** A URL without the external host and port is left as it is. */
  lemma ConvertKeepsOtherUrls(url: string)
    requires !Contains(url, ExternalHost)
    ensures ConvertToInternalUrl(url) == url
  {
    ReplaceWithoutOccurrence(url, ExternalHost, InternalHost);
  }

  /** Rewriting a URL on the external host whose remainder has no ':' changes the host
      and nothing else. */
  lemma ConvertHost(rest: string)
    requires forall i :: 0 <= i < |rest| ==> rest[i] != ':'
    ensures ConvertToInternalUrl("http://" + ExternalHost + rest) == "http://" + InternalHost + rest
  {
    var url := "http://" + ExternalHost + rest;
    assert OccursAt(url, ExternalHost, 7) by {
      assert url[7..7 + |ExternalHost|] == ExternalHost;
    }
    forall j | 0 <= j < 7 ensures !OccursAt(url, ExternalHost, j) {
      assert url[j] != 'l';
    }
    ReplaceAtFirstOccurrence(url, ExternalHost, InternalHost, 7);
    assert url[7 + |ExternalHost|..] == rest;
    WithoutColon(rest);
    ConvertKeepsOtherUrls(rest);
    assert url[..7] == "http://";
  }

  /** The endpoint the upload controllers register for a shell, on the external host,
      is rewritten into the endpoint of the same shell on the internal host. */
  lemma ConvertRegisteredEndpoint(id: string)
    ensures ConvertToInternalUrl(EncodedPath(ShellsPrefix(ExternalHost), id)) == EncodedPath(ShellsPrefix(InternalHost), id)
  {
    var enc := Base64UrlEncode(id);
    var rest := "/shells/" + enc;
    EncodingShape(id);
    forall i | 0 <= i < |rest| ensures rest[i] != ':' {
      if i >= 8 {
        assert rest[i] == enc[i - 8];
      }
    }
    ConvertHost(rest);
    assert EncodedPath(ShellsPrefix(ExternalHost), id) == "http://" + ExternalHost + rest;
    assert EncodedPath(ShellsPrefix(InternalHost), id) == "http://" + InternalHost + rest;
  }

  /** A text without ':' does not contain the host and port. */
  lemma WithoutColon(t: string)
    requires forall i :: 0 <= i < |t| ==> t[i] != ':'
    ensures !Contains(t, ExternalHost)
  {
    forall i | 0 <= i <= |t| ensures !OccursAt(t, ExternalHost, i) {
      if i + |ExternalHost| <= |t| {
        assert t[i..i + |ExternalHost|][9] == t[i + 9];
      }
    }
  }
}
