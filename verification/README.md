# AAS lookup service controllers, modelled in Dafny

The AASLookupService is an ASP.NET service. It sits in front of four BaSyx back-end services:
- the AAS environment (repository), on `aas-environment-v3:8081`;
- the shell-descriptor registry, on `aas-registry-v3:8080`;
- the discovery service, on `aas-discovery-service:8081`;
- the lookup service itself, as the match controller calls it.

This project models its six controllers:

- **AASLookupController**: `LookupAASByAssetId`.
  - It asks discovery for the shell ids linked to an asset id.
  - For each id it reads the registry descriptor (the id is base64url-encoded in the path).
  - It then fetches the shell from the descriptor's first endpoint, after rewriting `localhost:8082` to the internal host.
  - Modules `Lookup` and `Scanning`.
- **AASSubmodelMatchController**: `MatchSubmodels`.
  - It looks up an article, test adapters and test devices.
  - It keeps the adapters whose `TechnicalData/TechnicalProperties` (HousingNumber, SupportedProtocol) equal the article's.
  - It then pairs each kept adapter with the devices whose `InterfaceConnectors/ElectricalConnectors/ElectricalInterfaceVersion` and English `Nameplate/HardwareVersion` equal the adapter's.
  - Modules `Harvest`, `Dict`, `Compat` and `Match`.
- **AASPostController**: `UploadJSON`.
  - It posts every shell and submodel of an AAS environment JSON file to the repository.
  - Optionally it registers each shell and links its specific asset ids in discovery.
  - Modules `JsonUpload` and `JsonPost`.
- **AASWebUiPostController**: `UploadJSON`, the same upload with three differences:
  - shells with an empty display name get a default display name built from their `idShort`;
  - registration points at the external host;
  - discovery links each shell's `globalAssetId`.
  - The module also covers the `TruncateForLog` helper and the semantic-id extraction of `UploadToSubmodelRegistry`.
  - Module `WebUiPost`.
- **AASUploadController**: `UploadAASX`.
  - It uploads an AASX package.
  - Optionally it registers the shell the repository lists last and links its specific asset ids.
  - Module `AasxUpload`.
- **AASWebUIUploadController**: `UploadAASX` and `UploadAASXDirectory`.
  - They upload one package, or every package of a directory.
  - Optionally they link a user-given specific asset id in discovery, under a shell id derived from it.
  - Module `WebUiUpload`.

Shared pieces:
- `Wrappers`: Option and Result.
- `Strings`: `Replace`, `TrimEnd`, `IsNullOrEmpty`/`IsNullOrWhiteSpace` and decimal rendering.
- `Json`: the navigation primitives of System.Text.Json and Newtonsoft.Json.
- `Base64Url`:
  - the UTF-8 encoding and the two base64url encoders the controllers write;
  - a decoder, with the round trip proved.
- `Records`:
  - registry entries and discovery pairs;
  - the naming rule "prefix + base64url(id)", with its inverse.
- `Http`: requests, replies, action results, and the `Phase` type through which every action's steps are chained.

How the model treats the controllers:
- Every back-end service of the four upload and registration controllers is a parameter of type `Server`. It maps the requests already sent and the new request to one of three replies:
  - an answer with a status and a text;
  - `Refused`, for an `HttpRequestException`, which some controllers catch;
  - `Escaped`, for any other exception of the send (a `TaskCanceledException`, a `UriFormatException`), which none of them catches.
- The lookup and match controllers send only GET requests. Their services are functions of the URL alone (`Lookup.Services.fetch`, `Match.Lookup.fetch`), without the requests sent before.
- A URL the lookup controller's client cannot send at all (not an absolute http or https URL) throws before anything is sent (`Lookup.SendableUrl`).
- Every action except `Match.MatchSubmodels` returns its outcome together with the requests it sent, in order: a `Run`. `Match.MatchSubmodels` returns its `Response` alone.
- An exception that escapes an action is the outcome `Thrown`, which ASP.NET answers with 500.
- JSON text parsing and deserialisation are parameters too (`parse`, `decode`, the `Services` deserialisers). They answer a result for valid text and a failure for a `JsonException`.

## Model

| member | source | states |
|---|---|---|
| Base64Url.EncodingRoundTrip | AASLookupService/Controllers/AASLookupController.cs:136-141 | Decoding the base64url encoding of an id gives back exactly the id's UTF-8 bytes. |
| Base64Url.Utf8RoundTrip | AASLookupService/Controllers/AASLookupController.cs:138 | UTF-8 encoding of an id is injective: decoding the bytes gives the id back. |
| Base64Url.EncodersAgree | AASLookupService/Controllers/AASSubmodelMatchController.cs:173-180 | The match controller's encoder (`TrimEnd('=')`, char replaces) produces the same text as the other controllers' (`Replace("=", "")`) for every id. |
| Base64Url.EncodingShape | AASLookupService/Controllers/AASUploadController.cs:202-207 | The encoding contains only URL-safe digits (no '+', '/' or '='), and its length is the unpadded base64 length of the UTF-8 bytes. |
| Records.EncodedPathRoundTrip | AASLookupService/Controllers/AASUploadController.cs:140 | A path built as prefix + base64url(id) names exactly that id again. |
| Records.EncodedPathInjective | AASLookupService/Controllers/AASUploadController.cs:164 | Two different ids never share an encoded path under one prefix. |
| Records.RegistryEntryNamesShell | AASLookupService/Controllers/AASPostController.cs:164-196 | The registry entry copies id, idShort and assetKind, has one endpoint whose href decodes to the id on the given host, and has an administration block iff a revision was read. |
| Records.DiscoveryEntry | AASLookupService/Controllers/AASWebUiPostController.cs:288-295 | The discovery entry for a name is a single pair whose name is that name and whose value gives that name back. |
| Records.SpecificAssetIdsOf | AASLookupService/Controllers/AASPostController.cs:147-155 | One pair per array item in order, each name/value being that item's string member (null when absent); it throws iff some item is not an object or has a non-string name/value, or the element is not an array. |
| Json.FindLast | AASLookupService/Controllers/AASPostController.cs:129-131 | A member lookup answers the value of a member with that name, and no later member has that name: the last one wins, as in `TryGetProperty` and `JObject`. |
| Json.SetMember | AASLookupService/Controllers/AASWebUiPostController.cs:101-102 | After `dict[name] = v` the name maps to v, every other name maps as before, and an existing member is replaced in place. |
| Json.FirstWith | AASLookupService/Controllers/AASSubmodelMatchController.cs:91 | FirstOrDefault answers the first item whose key's text equals the wanted one, after only non-matching items; None iff none matches; it throws only at a non-object item reached before a match. |
| Dict.Set | AASLookupService/Controllers/AASSubmodelMatchController.cs:108 | After `result[key] = value` the key maps to the value and every other key is unchanged. |
| Harvest.TechnicalProperties | AASLookupService/Controllers/AASSubmodelMatchController.cs:86-115 | The harvested dictionary has distinct keys, all of them HousingNumber or SupportedProtocol. |
| Harvest.TechnicalIsLastWriteWins | AASLookupService/Controllers/AASSubmodelMatchController.cs:100-110 | For each key, the harvested value is the value of the last property with that idShort. |
| Harvest.TechnicalPathMissing | AASLookupService/Controllers/AASSubmodelMatchController.cs:90-93 | A document whose `submodels` is missing or not an array, or whose submodels all have an idShort other than TechnicalData, yields the empty dictionary. |
| Harvest.NoTechnicalPropertiesElement | AASLookupService/Controllers/AASSubmodelMatchController.cs:94-98 | When no element of the first TechnicalData submodel has idShort TechnicalProperties, the dictionary is empty. |
| Harvest.TechnicalValueNotArray | AASLookupService/Controllers/AASSubmodelMatchController.cs:98-101 | A TechnicalProperties element whose `value` is missing or not an array yields the empty dictionary. |
| Harvest.DeviceProperties | AASLookupService/Controllers/AASSubmodelMatchController.cs:126-171 | The device dictionary has distinct keys, at most two, each ElectricalConnectors or HardwareVersion. |
| Harvest.DeviceDict | AASLookupService/Controllers/AASSubmodelMatchController.cs:140-168 | The dictionary built from the two findings holds ElectricalConnectors exactly when the connector version was found, and HardwareVersion exactly when the hardware version was, with those values, and no other key. |
| Harvest.DevicePropertiesFromHalves | AASLookupService/Controllers/AASSubmodelMatchController.cs:133-168 | The device dictionary holds ElectricalConnectors iff the connector version was found, and HardwareVersion iff an English hardware version was found, with those values. |
| Compat.DictionariesMatch | AASLookupService/Controllers/AASSubmodelMatchController.cs:82-83 | The comparison is true iff the counts agree and every entry of the first dictionary is found in the second with the same non-null value; it throws only when the second holds null under a key of the first. |
| Compat.AllFoundTrue | AASLookupService/Controllers/AASSubmodelMatchController.cs:83 | The `All` loop says true iff every entry is found in the other dictionary with an equal, non-null value. |
| Compat.AllFoundThrows | AASLookupService/Controllers/AASSubmodelMatchController.cs:83 | The loop throws only when the other dictionary holds null under a tested key. |
| Compat.MatchIffSameMapping | AASLookupService/Controllers/AASSubmodelMatchController.cs:82-83 | For dictionaries without repeated keys, the comparison is true iff both are the same mapping with no null values. |
| Compat.MatchSymmetric | AASLookupService/Controllers/AASSubmodelMatchController.cs:117-124 | A successful comparison stays true with the dictionaries swapped. |
| Compat.MatchWithoutNulls | AASLookupService/Controllers/AASSubmodelMatchController.cs:122-123 | When the second dictionary has no nulls, the comparison does not throw and answers "same mapping, no nulls". |
| Compat.NullValueThrows | AASLookupService/Controllers/AASSubmodelMatchController.cs:83 | A null value under the first tested key makes the comparison throw. |
| Compat.AdapterCompatibleIff | AASLookupService/Controllers/AASSubmodelMatchController.cs:77-84 | Article and adapter are compatible iff they harvest the same technical values, none null. |
| Compat.AdapterCompatibleSymmetric | AASLookupService/Controllers/AASSubmodelMatchController.cs:77-84 | Adapter compatibility, when true, is symmetric. |
| Compat.DeviceCompatibleIff | AASLookupService/Controllers/AASSubmodelMatchController.cs:117-124 | Adapter and device are compatible iff they harvest the same connector and hardware values, none null. |
| Compat.DeviceCompatibleSymmetric | AASLookupService/Controllers/AASSubmodelMatchController.cs:117-124 | Device compatibility, when true, is symmetric. |
| Match.GetAas | AASLookupService/Controllers/AASSubmodelMatchController.cs:69-75 | The lookup succeeds iff the request succeeds and its text parses as a JSON object, and answers that object. |
| Match.EncodeAll | AASLookupService/Controllers/AASSubmodelMatchController.cs:26-28 | Every asset id is encoded, in order. |
| Match.MatchHitsSound | AASLookupService/Controllers/AASSubmodelMatchController.cs:33-59 | Every reported pair is a compatible adapter (by article comparison) and a device compatible with that adapter (re-looked-up by its shell id). |
| Match.MatchHitsComplete | AASLookupService/Controllers/AASSubmodelMatchController.cs:33-59 | Every compatible adapter/device combination is reported. |
| Match.MatchHitsOrdered | AASLookupService/Controllers/AASSubmodelMatchController.cs:47-59 | Pairs come in adapter order, then device order, with no repeats, and there are at most adapters × devices of them. |
| Match.MatchHitsExact | AASLookupService/Controllers/AASSubmodelMatchController.cs:33-59 | A pair is reported iff it matches. |
| Match.MatchSubmodels | AASLookupService/Controllers/AASSubmodelMatchController.cs:21-67 | The action answers Ok or the 500 "An error occurred: " of the catch, never anything else. |
| Match.AdapterFailureIs500 | AASLookupService/Controllers/AASSubmodelMatchController.cs:35-66 | A failing adapter lookup turns the whole action into the 500 of the catch. |
| Lookup.LookupAas | AASLookupService/Controllers/AASLookupController.cs:23-113 | A successful run answers only Ok or the missing-asset-id 400; every other outcome is an escaping exception. |
| Lookup.FetchAasData | AASLookupService/Controllers/AASLookupController.cs:115-129 | A refused request or an unsuccessful status gives null. A URL that is not absolute http(s), or another exception of the send, escapes. Otherwise the result is the deserialised document, whose failure escapes. |
| Lookup.ShellOf | AASLookupService/Controllers/AASLookupController.cs:76-109 | A turn sends the descriptor GET for the encoded id first and at most one more request. A skipped id sends only that one. A kept entry also sent the shell GET, to a sendable URL without the external host. |
| Lookup.BadRequestIffNoAssetId | AASLookupService/Controllers/AASLookupController.cs:25-28 | The action answers 400 iff the asset id is null or empty, and then sends nothing; otherwise it sends something. |
| Lookup.DiscoveryComesFirst | AASLookupService/Controllers/AASLookupController.cs:35-40 | The first request is the discovery query carrying the asset id unencoded; an unsuccessful discovery reply makes the action throw. |
| Lookup.LookupAnswersShells | AASLookupService/Controllers/AASLookupController.cs:42-112 | Once discovery has answered, the action succeeds iff the registry loop does, and answers the entries that loop keeps. |
| Lookup.ShellsKept | AASLookupService/Controllers/AASLookupController.cs:76-110 | One entry per discovered id whose descriptor lists an endpoint, in discovery order; ids without endpoints are skipped. |
| Lookup.ShellOfEntry | AASLookupService/Controllers/AASLookupController.cs:80-109 | An id is skipped iff its descriptor lists no endpoint. Otherwise the rewritten href is a sendable URL whose fetch did not escape, and the entry is null iff the shell request is refused or unsuccessful or the document is null. |
| Lookup.UnsendableHrefEscapes | AASLookupService/Controllers/AASLookupController.cs:97-105 | A first href that is not an absolute http(s) URL once rewritten makes the turn throw after the descriptor request alone. |
| Lookup.EmptyAndRelativeHrefsUnsendable | AASLookupService/Controllers/AASLookupController.cs:102-105 | An example for two inputs: an empty href and a relative one stay unsendable after the rewrite. |
| Lookup.RegistryFailureEscapes | AASLookupService/Controllers/AASLookupController.cs:80-81 | A failing registry request is not caught and the lookup fails. |
| Lookup.ConvertToInternalUrl | AASLookupService/Controllers/AASLookupController.cs:131-134 | After the rewrite the URL contains no `localhost:8082` at all. |
| Lookup.ConvertKeepsOtherUrls | AASLookupService/Controllers/AASLookupController.cs:131-134 | A URL not containing `localhost:8082` is left unchanged. |
| Lookup.ConvertHost | AASLookupService/Controllers/AASLookupController.cs:131-134 | A URL on the external host whose remainder has no ':' is moved to the internal host and is otherwise unchanged. |
| Lookup.ConvertRegisteredEndpoint | AASLookupService/Controllers/AASLookupController.cs:131-134 | The endpoint the web UI registers, once rewritten, is the same shell path on the internal host. |
| JsonUpload.ReadUpload | AASLookupService/Controllers/AASPostController.cs:27-61 | The reading step sends nothing. It proceeds iff the file is non-empty, parses, and is an object with all three sections, and answers the two sections. It answers the three 400s for the three failures, and throws iff the text parses to a non-object. |
| JsonUpload.PostItemsProceeds | AASLookupService/Controllers/AASPostController.cs:71-116 | The posting loop goes through iff every item could be prepared and every reply is 2xx or 409, and then sends exactly one POST per item, in order. |
| JsonUpload.PostItemsHalts | AASLookupService/Controllers/AASPostController.cs:71-109 | A loop that stops does so at the first item whose preparation throws or whose reply is refused or a non-409 failure, with that item's outcome (for submodels, numbered from 1). |
| JsonUpload.PostSectionsProceeds | AASLookupService/Controllers/AASPostController.cs:70-116 | Shells then submodels are posted; the step proceeds iff both loops do, sending the shell posts followed by the submodel posts. |
| JsonUpload.PostSectionsTargets | AASLookupService/Controllers/AASPostController.cs:71-97 | Every request of the posting step is a POST to the shells or submodels collection. |
| JsonUpload.NestedString | AASLookupService/Controllers/AASPostController.cs:134-138 | When the outer member is present, the result is the inner member's string read: the string itself, or null when absent or JSON null. A missing outer member gives null. It throws exactly on a non-object or a non-string, non-null inner value. |
| JsonUpload.AssetIdsOf | AASLookupService/Controllers/AASPostController.cs:140-156 | When both `assetInformation` and `specificAssetIds` are present, the result is the pair list read from the array. When either is absent, it is null. It throws exactly on a non-object shell or `assetInformation`, or a pair list that cannot be read. |
| JsonUpload.ReadShellFields | AASLookupService/Controllers/AASPostController.cs:122-161 | id, revision, assetKind, specificAssetIds and idShort are each what their member reads give, and reading succeeds iff all five reads succeed. |
| JsonUpload.RegisterShellOutcomes | AASLookupService/Controllers/AASPostController.cs:202-222 | A refused registry POST answers 500 "An error occurred while posting to the registry: "; a failure status answers that status with "Failed to register AAS: " and the reply text; 2xx proceeds. |
| JsonUpload.RegisteredEntryDescribesShell | AASLookupService/Controllers/AASPostController.cs:164-196 | The posted entry carries the shell's own id, idShort and assetKind, one endpoint naming the id on the host, and administration iff the shell has a revision. |
| JsonPost.UploadJson | AASLookupService/Controllers/AASPostController.cs:25-262 | A missing or empty file answers 400 with nothing sent. An Ok message claims a discovery link exactly when `register` is set, whatever `discover` is. |
| JsonPost.LinkShell | AASLookupService/Controllers/AASPostController.cs:225-254 | One POST of the shell's specificAssetIds to the link endpoint of its encoded id. It proceeds iff the reply is 2xx. A failed send throws. Another status answers that status with "Failed to link in Discovery: " and the reply text. |
| JsonPost.UploadGuards | AASLookupService/Controllers/AASPostController.cs:27-61 | A missing file, unparsable text and a root lacking a section each answer their 400 before any request. |
| JsonPost.RegisterAllCount | AASLookupService/Controllers/AASPostController.cs:118-256 | A registration pass that goes through sends one registry POST per shell, plus one discovery POST per shell when discover is set. |
| JsonPost.StepsTargets | AASLookupService/Controllers/AASPostController.cs:70-256 | Without discovery the action only posts to shells, submodels and the registry; without registration only to shells and submodels. |
| JsonPost.UploadWithoutRegister | AASLookupService/Controllers/AASPostController.cs:259-262 | Without registration only shells and submodels are posted, and success answers "JSON uploaded.". |
| JsonPost.LinkCarriesShellIds | AASLookupService/Controllers/AASPostController.cs:225-244 | The discovery link for a registered shell is posted under that shell's encoded id, with the shell's own specificAssetIds as body. |
| JsonPost.RegisteredHrefIsInternal | AASLookupService/Controllers/AASPostController.cs:175 | The descriptor's href decodes to the shell's id on the internal repository host. |
| JsonPost.RegisterWithoutDiscoverClaimsLink | AASLookupService/Controllers/AASPostController.cs:257 | With register and without discover, no discovery request is sent, yet success answers "…registered and linked in Discovery.", a message that contains "linked in Discovery". |
| JsonPost.LinkClaimedWithoutRequests | AASLookupService/Controllers/AASPostController.cs:118-257 | A concrete run (empty sections, register without discover) answers the linked message. |
| JsonPost.IntendedMessageTruthful | AASLookupService/Controllers/AASWebUiPostController.cs:323-337 | With the corrected message, success claims a link iff register and discover, and claims registration iff register. |
| JsonPost.IntendedMessageOnEmptyEnvironment | AASLookupService/Controllers/AASWebUiPostController.cs:327-329 | The same concrete run answers "JSON uploaded and registered." with the corrected message. |
| WebUiPost.FirstDisplayText | AASLookupService/Controllers/AASWebUiPostController.cs:91-94 | Reading the first display text succeeds only on an object whose displayName is a non-empty array. |
| WebUiPost.DefaultDisplayName | AASLookupService/Controllers/AASWebUiPostController.cs:96-99 | The default display name is an array of an English and a German entry, both with the idShort as text. |
| WebUiPost.PrepareShell | AASLookupService/Controllers/AASWebUiPostController.cs:88-105 | Preparation succeeds iff displayName[0].text and idShort can be read. A non-empty text leaves the shell unchanged. An empty text replaces only displayName, by the default, in place. |
| WebUiPost.PrepareShellIdempotent | AASLookupService/Controllers/AASWebUiPostController.cs:88-105 | Preparing a prepared shell changes nothing. |
| WebUiPost.RegisteredHrefIsExternal | AASLookupService/Controllers/AASWebUiPostController.cs:210 | The descriptor's href decodes to the shell's id on the host a browser reaches. |
| WebUiPost.LinkGlobalAssetId | AASLookupService/Controllers/AASWebUiPostController.cs:264-321 | A null or empty globalAssetId or id answers 400 before sending; otherwise one discovery POST is sent under the encoded id. |
| WebUiPost.LinkRequestNamesShell | AASLookupService/Controllers/AASWebUiPostController.cs:282-302 | The link path decodes to the shell's id, and its one pair is named by the globalAssetId, with a value naming it back. |
| WebUiPost.LinkedShellNamesId | AASLookupService/Controllers/AASWebUiPostController.cs:266-321 | A shell whose link goes through sends exactly one request, and its path decodes to that shell's non-null id. |
| WebUiPost.LinkEachLength | AASLookupService/Controllers/AASWebUiPostController.cs:262-321 | A discover pass that goes through sends one request per shell and keeps what was sent before. |
| WebUiPost.LinkEachOnePerShell | AASLookupService/Controllers/AASWebUiPostController.cs:262-321 | The discover pass links the shells in the array's order: its k-th request goes to the link endpoint of the k-th shell's id. |
| WebUiPost.MessageTable | AASLookupService/Controllers/AASWebUiPostController.cs:323-337 | The message claims a discovery link exactly when `discover` is set, and registration exactly when `register` is. |
| WebUiPost.UploadJson | AASLookupService/Controllers/AASWebUiPostController.cs:38-337 | A missing or empty file answers 400 with nothing sent. An Ok message claims a discovery link exactly when `discover` is set. |
| WebUiPost.MessageTableInjective | AASLookupService/Controllers/AASWebUiPostController.cs:323-337 | The four success messages are pairwise different, so the message tells both flags. |
| WebUiPost.UploadOutcomes | AASLookupService/Controllers/AASWebUiPostController.cs:38-337 | The guards answer their 400s before sending. Success comes iff every step goes through, and answers the message for the two flags. |
| WebUiPost.PostedShellsArePrepared | AASLookupService/Controllers/AASWebUiPostController.cs:86-107 | Every shell POST carries the prepared shell, in order. |
| WebUiPost.TruncateForLog | AASLookupService/Controllers/AASWebUiPostController.cs:581-587 | Content is a sequence of UTF-16 code units, as `Length` and `Substring` count it. Null or empty content comes back unchanged, and so does content within the limit. Longer content keeps its first `max` code units followed by "...". A negative limit makes Substring throw. |
| WebUiPost.TruncateBmpText | AASLookupService/Controllers/AASWebUiPostController.cs:586 | For text inside the basic multilingual plane, the limit counts characters: the result is the text's first `max` characters followed by "...". |
| WebUiPost.TruncateCountsCodeUnits | AASLookupService/Controllers/AASWebUiPostController.cs:586 | An example: 300 copies of U+1F600 are 600 code units, over the 500 limit, and keep only 250 copies followed by "...". |
| WebUiPost.TruncateSplitsSurrogatePair | AASLookupService/Controllers/AASWebUiPostController.cs:586 | For any character outside the basic multilingual plane, a limit of 1 keeps a lone high surrogate followed by "...". |
| WebUiPost.TruncateIdempotent | AASLookupService/Controllers/AASWebUiPostController.cs:581-587 | Truncating an already truncated text gives it back unchanged: truncation is idempotent. |
| WebUiPost.SemanticId | AASLookupService/Controllers/AASWebUiPostController.cs:469-484 | No semanticId, or one without keys, gives "". Otherwise the keys must be an array, and the value is the key loop's. Success needs an object submodel. |
| WebUiPost.SubmodelKeyValue | AASLookupService/Controllers/AASWebUiPostController.cs:469-484 | The value of the first key whose type is "Submodel", or "" when there is none; it throws iff a key before the first such key cannot be tested. |
| AasxUpload.CheckRequest | AASLookupService/Controllers/AASUploadController.cs:27-35 | The action goes on iff the file is non-empty and discovery is not asked without registration; the two 400s otherwise, before any request. |
| AasxUpload.UploadGuards | AASLookupService/Controllers/AASUploadController.cs:27-35 | A missing or empty file, and discovery without registration, answer their 400 with nothing sent. |
| AasxUpload.UploadPackage | AASLookupService/Controllers/AASUploadController.cs:59-99 | Exactly the upload POST is sent. It proceeds iff the reply is 2xx. A refused send answers 500 with the upload error. An escaping exception is not caught. 409 answers Conflict. Any other status answers itself with "Failed to upload AASX file: " and the text. |
| AasxUpload.UploadMessage | AASLookupService/Controllers/AASUploadController.cs:190-198 | The Ok message claims a discovery link exactly when both flags are set, and registration exactly when `register` is. |
| AasxUpload.UploadFirst | AASLookupService/Controllers/AASUploadController.cs:72-86 | Past the guards the upload POST is the first request; a 409 answers Conflict "AASX file already exists in the repository." and nothing more is sent. |
| AasxUpload.NewestShell | AASLookupService/Controllers/AASUploadController.cs:104-118 | The step proceeds with the last entry of the listing. It answers 404 iff the listing is empty or its last entry is null, and throws iff the listing cannot be read (failure status, unreadable text, null document or list). |
| AasxUpload.RevisionOf | AASLookupService/Controllers/AASUploadController.cs:122 | The revision is the shell's own when present, and "0" otherwise. |
| AasxUpload.EntryOf | AASLookupService/Controllers/AASUploadController.cs:121-155 | The entry is built iff asset information and id are non-null, always with an administration block, on the external host. |
| AasxUpload.RegisterNewest | AASLookupService/Controllers/AASUploadController.cs:162-174 | The entry is posted under its encoded id; the step proceeds iff the reply is 2xx; a refused request escapes. |
| AasxUpload.LinkAssetIds | AASLookupService/Controllers/AASUploadController.cs:181-188 | The wrapped specific asset ids are posted under the encoded id; anything but a 2xx reply throws. |
| AasxUpload.UploadAasx | AASLookupService/Controllers/AASUploadController.cs:25-199 | A missing or empty file answers 400 with nothing sent; an Ok answer only comes when discovery was not asked without registration, and carries the message of the path taken. |
| AasxUpload.UploadOkMessage | AASLookupService/Controllers/AASUploadController.cs:101-198 | Success answers the message of the path taken, and sends 1, 3 or 4 requests (upload; listing and registry; discovery). |
| AasxUpload.RegistersNewestShell | AASLookupService/Controllers/AASUploadController.cs:104-164 | The registered entry is built from the last-listed shell, with revision defaulting to "0"; the registry path and the endpoint href both decode to its id. |
| AasxUpload.LinksRegisteredShell | AASLookupService/Controllers/AASUploadController.cs:177-190 | The discovery link names the registered id and carries that shell's own specificAssetIds. |
| AasxUpload.UploadOnly | AASLookupService/Controllers/AASUploadController.cs:196-199 | Without registration only the upload is sent. |
| WebUiUpload.AasIdRoundTrip | AASLookupService/Controllers/AASWebUIUploadController.cs:152 | The shell id derived from a specific asset id gives that asset id back. |
| WebUiUpload.LinkRequestNames | AASLookupService/Controllers/AASWebUIUploadController.cs:135-155 | The link path decodes to the derived shell id, and its single pair is named by the specific asset id, with a value naming it back. |
| WebUiUpload.UploadPackageAfter | AASLookupService/Controllers/AASWebUIUploadController.cs:94-126 | The upload goes through iff the reply is 2xx. An escaping exception is not caught. A refused send answers 500 with the upload error. Any other status, 409 included, answers itself with "Failed to upload AASX file: " and the text. |
| WebUiUpload.Link | AASLookupService/Controllers/AASWebUIUploadController.cs:150-172 | The link goes through iff the reply is 2xx. An escaping exception is not caught. A refused send answers 500 with the discovery error. Any other status answers itself with the discovery failure text and the reply. |
| WebUiUpload.Process | AASLookupService/Controllers/AASWebUIUploadController.cs:75-179 | Processing a package throws exactly when its last request ended in an exception no catch handles. |
| WebUiUpload.UploadAasx | AASLookupService/Controllers/AASWebUIUploadController.cs:25-34 | The single-package action throws exactly when its last request ended in an uncaught exception. |
| WebUiUpload.ProcessOutcomes | AASLookupService/Controllers/AASWebUIUploadController.cs:79-178 | The guards answer 400 with nothing sent. Otherwise the upload and then, when asked, the link follow the earlier requests. Success comes iff every request sent succeeded, with the message saying whether the package was linked. |
| WebUiUpload.ContainerPath | AASLookupService/Controllers/AASWebUIUploadController.cs:40 | A rooted path is kept; any other non-empty path is joined under the mount point. |
| WebUiUpload.ProcessAll | AASLookupService/Controllers/AASWebUIUploadController.cs:60-71 | One result per package when no package throws. The earlier requests stay a prefix. A throwing package ends the loop with an uncaught exception. |
| WebUiUpload.ProcessAllAt | AASLookupService/Controllers/AASWebUIUploadController.cs:62-70 | The result for package i is the type name of processing that package alone, named by its file name, after the requests of the packages before it. |
| WebUiUpload.UploadDirectory | AASLookupService/Controllers/AASWebUIUploadController.cs:37-73 | A null path throws. A missing or empty directory answers its 400 with nothing sent. Success lists one result per package. Any other exception comes from an uncaught send failure. |
| WebUiUpload.AcceptedPackagesAllOk | AASLookupService/Controllers/AASWebUIUploadController.cs:62-72 | When every request succeeds, every non-empty package is reported Ok and sends one or two requests. |

## Left out

- The file reads and stream handling are not modelled:
  - the upload controllers' stream reads, including AASUploadController's preview read and its "Error reading file" 500;
  - `FileStream` errors in `UploadAASXDirectory`.
- The multipart upload body is represented by the file name alone.
- Console and `ILogger` output are left out. So is `TruncateForLog`'s only use, which is for logging.
- JSON text parsing and `JsonSerializer` deserialisation are parameters, which the model does not check. Serialisation is not modelled: request bodies are records (`Body`) holding the JSON value or the entry sent.
  - `JsonException` messages are carried only as a prefix (`WithException`).
  - Exception messages are not represented.
- `Json.Text`: Newtonsoft renders containers indented. The model renders them compactly. The match controller only compares strings, numbers and booleans this way.
- `Json.Find`: a JSON object with repeated member names is resolved to the last one, as `TryGetProperty` and Newtonsoft's `JObject` do.
- `WebUiPost.PrepareShell`: the source copies the shell into a `Dictionary`, which keeps one entry per repeated member name. The model keeps every member and overwrites each one named displayName.
- `Lookup.SendableUrl`: `Uri` trims leading and trailing white space before parsing. The model treats such a URL as unsendable. It also does not model other schemes a client handler might accept. It accepts "http://" and "https://" followed by an empty or unparsable authority, which `GetAsync` rejects before sending. There the server parameter may still answer `Escaped`, which has the same effect, but the model does not force it.
- `Lookup.Services`, `Match.Lookup`: the fetch oracles are deterministic per URL. A fetch of a URL already fetched gets the same reply, so a transient failure on a repeated fetch is not represented: a device document re-fetched for each matching adapter, or a discovery id listed twice. The lookup and match contracts are stated per URL, which a history-free oracle keeps simple.
- Strings are sequences of Unicode scalar values, except the content of `WebUiPost.TruncateForLog`, which is a sequence of UTF-16 code units (`Strings.Utf16`). A string holding a lone surrogate elsewhere, which the UTF-8 encoder would replace, is not modelled.
- `PrepareShell`: the default display name is built as a JSON value holding the idShort. The source interpolates the idShort into JSON text. An idShort containing `"` or `\` would make that text invalid or different, and the model does not represent that failure.
- `UploadToSubmodelRegistry`: its descriptor POST is not modelled, because its only call site is commented out. Only its semantic-id extraction is modelled (`SemanticId`, `SubmodelKeyValue`).
- `Json.FirstChildWith`: the match controller's `electricalConnectors["value"]?.FirstOrDefault(...)` over an object enumerates JProperty tokens. Indexing those throws. The model gives that case `Thrown` without distinguishing property names.
- `WebUiUpload.Packages`: `Directory.GetFiles(path, "*.aasx")` is a parameter returning the matching files in listing order. Pattern matching and the file system are not modelled.
- The `PagingMetadata` of listings is ignored, and paging is not followed.
- Null items inside deserialised `specificAssetIds` lists are passed on unread; the model's lists hold no null items.

The match controller parses the lookup service's answer with `JObject.Parse`. The lookup controller answers a JSON array. Against the real lookup service, every match request would therefore end in the catch's 500. The model keeps the lookup response as an opaque parameter (`Match.GetAas`), so this mismatch between two services is recorded here, not proved.

## Findings

| source | as written | input that shows it | evidently intended | confidence | as-written member | corrected member |
|---|---|---|---|---|---|---|
| AASLookupService/Controllers/AASPostController.cs:257 | Whenever `register` is set and every step succeeds, the action answers "JSON uploaded, registered and linked in Discovery.", even when `discover` is false and no discovery request was sent | register=true, discover=false, a file with empty `assetAdministrationShells`, `submodels` and `conceptDescriptions` arrays | "JSON uploaded and registered." when discover is false, as the sibling web UI controller (AASWebUiPostController.cs:323-337) and the AASX controller answer | not executed | JsonPost.RegisterWithoutDiscoverClaimsLink, JsonPost.LinkClaimedWithoutRequests | JsonPost.IntendedMessageTruthful |
