/** The AASX upload action: the package goes to the repository; then, when asked, the
    shell the repository lists last is registered with the registry, and its specific
    asset ids are linked in the discovery service under the shell's id. */
module AasxUpload {
  import opened Wrappers
  import opened Strings
  import opened Records
  import opened Http

  /** The uploaded form file: its name and its length in bytes. */
  datatype FormFile = FormFile(fileName: string, length: nat)

  /** The repository's shell listing as the action deserializes it; every reference in
      it may be null. */
  datatype AdministrationDto = AdministrationDto(revision: Option<string>)
  datatype AssetInformationDto = AssetInformationDto(assetKind: Option<string>, specificAssetIds: Option<seq<SpecificAssetId>>)
  datatype ShellDescriptor = ShellDescriptor(
    id: Option<string>,
    administration: Option<AdministrationDto>,
    assetInformation: Option<AssetInformationDto>,
    idShort: Option<string>)
  datatype ShellsResponse = ShellsResponse(result: Option<seq<Option<ShellDescriptor>>>)

  /** `JsonSerializer.Deserialize<ShellsResponse>`: Thrown for text it cannot read as a
      listing (a JsonException), None for the JSON literal null. */
  type ShellsDecoder = string -> Result<Option<ShellsResponse>>

  const UploadUrl := "http://aas-environment-v3:8081/upload"
  /** The registry's descriptor endpoint; the encoded shell id follows it. */
  const RegistryPrefix := "http://aas-registry-v3:8080/api/v3.0/shell-descriptors/"

  const FileRequired := "AASX file is required."
  const DiscoveryNeedsRegistration := "Discovery can only be performed if registration is also enabled."
  const AlreadyExists := "AASX file already exists in the repository."
  const UploadFailure := "Failed to upload AASX file: "
  const UploadError := "An error occurred while uploading the AASX file: "
  const NoShells := "No shell descriptors found."
  const RegistryFailure := "Failed to register AAS: "

  const LinkedAasx := "AASX uploaded, registered and linked in Discovery."
  const RegisteredAasx := "AASX uploaded and registered."
  const UploadedAasx := "AASX uploaded."

  /** How the three messages end. */
  lemma MessageEndings()
    ensures EndsWith(LinkedAasx, "linked in Discovery.") && EndsWith(LinkedAasx, "registered and linked in Discovery.")
    ensures !EndsWith(RegisteredAasx, "linked in Discovery.") && EndsWith(RegisteredAasx, "registered.")
    ensures !EndsWith(UploadedAasx, "linked in Discovery.") && !EndsWith(UploadedAasx, "registered.") && !EndsWith(UploadedAasx, "registered and linked in Discovery.")
  {
  }

  /** The Ok message of each way through the action: it claims a discovery link only
      when both flags are set, and registration exactly when `register` is. */
  function UploadMessage(register: bool, discover: bool): (r: string)
    ensures EndsWith(r, "linked in Discovery.") <==> register && discover
    ensures EndsWith(r, "registered.") || EndsWith(r, "registered and linked in Discovery.") <==> register
  {
    MessageEndings();
    if register && discover then LinkedAasx
    else if register then RegisteredAasx
    else UploadedAasx
  }

  /** The two guards: a non-empty file, and no discovery without registration. */
  function CheckRequest(file: Option<FormFile>, register: bool, discover: bool): (p: Phase<FormFile>)
    ensures p.sent == [] && HaltsWithoutOk(p)
    ensures p.Proceed? <==> file.Some? && file.value.length > 0 && !(discover && !register)
    ensures p.Proceed? ==> p.value == file.value
    ensures file.None? || file.value.length == 0 ==>
      p.Halt? && p.outcome == Success(BadRequest(Text(FileRequired)))
    ensures file.Some? && file.value.length > 0 && discover && !register ==>
      p.Halt? && p.outcome == Success(BadRequest(Text(DiscoveryNeedsRegistration)))
  {
    if file.None? || file.value.length == 0 then Halt(Success(BadRequest(Text(FileRequired))), [])
    else if discover && !register then Halt(Success(BadRequest(Text(DiscoveryNeedsRegistration))), [])
    else Proceed(file.value, [])
  }

  /** The multipart POST that carries the package to the repository. */
  function UploadRequest(file: FormFile): Request {
    Request(POST, UploadUrl, AasxFile(file.fileName))
  }

  /** Step 1: a refused request answers 500, a 409 says the package is already there,
      any other failure status is passed on with the repository's text; only an
      HttpRequestException is caught, so any other exception escapes. */
  function UploadPackage(server: Server, file: FormFile): (p: Phase<()>)
    ensures HaltsWithoutOk(p)
    ensures p.sent == [UploadRequest(file)]
    ensures p.Proceed? <==> Succeeded(server([], UploadRequest(file)))
    ensures p.Halt? && p.outcome.Thrown? <==> server([], UploadRequest(file)).Escaped?
    ensures server([], UploadRequest(file)).Refused? ==>
      p.outcome == Success(Status(500, WithException(UploadError)))
    ensures var reply := server([], UploadRequest(file));
      reply.Answered? && reply.status == 409 ==> p.outcome == Success(Conflict(Text(AlreadyExists)))
    ensures var reply := server([], UploadRequest(file));
      reply.Answered? && !IsSuccessStatusCode(reply.status) && reply.status != 409 ==>
        p.outcome == Success(Status(reply.status, Text(UploadFailure + reply.content)))
  {
    var req := UploadRequest(file);
    var reply := server([], req);
    if reply.Escaped? then Halt(Thrown, [req])
    else if reply.Refused? then Halt(Success(Status(500, WithException(UploadError))), [req])
    else if IsSuccessStatusCode(reply.status) then Proceed((), [req])
    else if reply.status == 409 then Halt(Success(Conflict(Text(AlreadyExists))), [req])
    else Halt(Success(Status(reply.status, Text(UploadFailure + reply.content))), [req])
  }

  /** The repository's shell listing behind a reply: None when any step of reading it
      throws (a failure status, unreadable text, a null document or a null list). */
  function Listing(reply: Reply, decode: ShellsDecoder): Option<seq<Option<ShellDescriptor>>> {
    if !Succeeded(reply) then None
    else match decode(reply.content)
      case Success(Some(ShellsResponse(Some(list)))) => Some(list)
      case _ => None
  }

  /** The GET of the repository's shells. */
  const ListShells := Request(GET, ShellsUrl, NoBody)

  /** `LastOrDefault()` on a list of references. */
  function LastOrDefault<T>(xs: seq<Option<T>>): Option<T> {
    if |xs| == 0 then None else xs[|xs| - 1]
  }

  /** Step 2: fetch the listing and pick its last shell; an empty listing, or one whose
      last entry is null, answers 404. */
  function NewestShell(server: Server, sent: seq<Request>, decode: ShellsDecoder): (p: Phase<ShellDescriptor>)
    ensures HaltsWithoutOk(p)
    ensures p.sent == sent + [ListShells]
    ensures var l := Listing(server(sent, ListShells), decode);
      && (p.Proceed? ==> l.Some? && |l.value| > 0 && l.value[|l.value| - 1] == Some(p.value))
      && (p.Halt? && p.outcome.Thrown? <==> l.None?)
      && (p.Halt? && p.outcome == Success(NotFound(Text(NoShells))) <==>
            l.Some? && (|l.value| == 0 || l.value[|l.value| - 1].None?))
  {
    var reply := server(sent, ListShells);
    var listing := Listing(reply, decode);
    if listing.None? then Halt(Thrown, sent + [ListShells])
    else match LastOrDefault(listing.value)
      case None => Halt(Success(NotFound(Text(NoShells))), sent + [ListShells])
      case Some(shell) => Proceed(shell, sent + [ListShells])
  }

  /** `Administration?.Revision ?? "0"`. */
  function RevisionOf(shell: ShellDescriptor): (r: string)
    ensures shell.administration.Some? && shell.administration.value.revision.Some? ==>
      r == shell.administration.value.revision.value
    ensures shell.administration.None? || shell.administration.value.revision.None? ==> r == "0"
  {
    if shell.administration.Some? && shell.administration.value.revision.Some?
    then shell.administration.value.revision.value
    else "0"
  }

  /** Step 3: the registry entry for the shell, on the repository's external host, with an
      administration block always present. A null asset information or a null id throws. */
  function EntryOf(shell: ShellDescriptor): (r: Result<RegistryEntry>)
    ensures r.Success? <==> shell.assetInformation.Some? && shell.id.Some?
    ensures r.Success? ==>
      r == NewRegistryEntry(ExternalHost, shell.id, shell.idShort,
                            shell.assetInformation.value.assetKind, Some(RevisionOf(shell)))
  {
    if shell.assetInformation.None? then Thrown
    else NewRegistryEntry(ExternalHost, shell.id, shell.idShort,
                          shell.assetInformation.value.assetKind, Some(RevisionOf(shell)))
  }

  /** The POST of an entry to the registry, under its encoded id. */
  function RegistryRequest(e: RegistryEntry): Request {
    Request(POST, EncodedPath(RegistryPrefix, e.id), Descriptor(e))
  }

  /** Step 4: post the entry. Nothing catches a failed send here, so it escapes the
      action; a failure status is passed on with the registry's text. */
  function RegisterNewest(server: Server, sent: seq<Request>, shell: ShellDescriptor): (p: Phase<RegistryEntry>)
    ensures HaltsWithoutOk(p)
    ensures p.Proceed? ==> EntryOf(shell) == Success(p.value)
    ensures EntryOf(shell).Thrown? ==> p == Halt(Thrown, sent)
    ensures EntryOf(shell).Success? ==> p.sent == sent + [RegistryRequest(EntryOf(shell).value)]
    ensures EntryOf(shell).Success? ==>
      (p.Proceed? <==> Succeeded(server(sent, RegistryRequest(EntryOf(shell).value))))
  {
    var e := EntryOf(shell);
    if e.Thrown? then Halt(Thrown, sent)
    else
      var req := RegistryRequest(e.value);
      var reply := server(sent, req);
      if !reply.Answered? then Halt(Thrown, sent + [req])
      else if !IsSuccessStatusCode(reply.status) then
        Halt(Success(Status(reply.status, Text(RegistryFailure + reply.content))), sent + [req])
      else Proceed(e.value, sent + [req])
  }

  /** The POST linking the shell's specific asset ids, wrapped in an object, under its id. */
  function LinkRequest(id: string, info: AssetInformationDto): Request {
    Request(POST, EncodedPath(DiscoveryLinkPrefix, id), WrappedAssetIds(info.specificAssetIds))
  }

  /** Step 5: post the link; a refused request and a failure status both throw. */
  function LinkAssetIds(server: Server, sent: seq<Request>, id: string, info: AssetInformationDto): (p: Phase<()>)
    ensures HaltsWithoutOk(p)
    ensures p.sent == sent + [LinkRequest(id, info)]
    ensures p.Proceed? <==> Succeeded(server(sent, LinkRequest(id, info)))
    ensures p.Halt? ==> p.outcome.Thrown?
  {
    var req := LinkRequest(id, info);
    if Succeeded(server(sent, req)) then Proceed((), sent + [req]) else Halt(Thrown, sent + [req])
  }

  /** The steps of the action, in order. */
  function Steps(server: Server, decode: ShellsDecoder, file: Option<FormFile>,
                 register: bool, discover: bool): (p: Phase<()>)
    ensures HaltsWithoutOk(p)
  {
    var g := CheckRequest(file, register, discover);
    if g.Halt? then Halt(g.outcome, g.sent)
    else
      var u := UploadPackage(server, g.value);
      if u.Halt? || !register then u
      else
        var n := NewestShell(server, u.sent, decode);
        if n.Halt? then Halt(n.outcome, n.sent)
        else
          var r := RegisterNewest(server, n.sent, n.value);
          if r.Halt? then Halt(r.outcome, r.sent)
          else if !discover then Proceed((), r.sent)
          else LinkAssetIds(server, r.sent, r.value.id, n.value.assetInformation.value)
  }

  /** UploadAASX */
  function UploadAasx(server: Server, decode: ShellsDecoder, file: Option<FormFile>,
                      register: bool, discover: bool): (r: Run<string>)
    ensures file.None? || file.value.length == 0 ==> r == Run(Success(BadRequest(Text(FileRequired))), [])
    ensures r.outcome.Success? && r.outcome.value.Ok? ==>
      !(discover && !register) && r.outcome.value.value == UploadMessage(register, discover)
  {
    Finish(Steps(server, decode, file, register, discover), UploadMessage(register, discover))
  }

  /** Both guards answer 400 before any request is sent. */
  lemma UploadGuards(server: Server, decode: ShellsDecoder, file: Option<FormFile>, register: bool, discover: bool)
    ensures file.None? || file.value.length == 0 ==>
      UploadAasx(server, decode, file, register, discover) == Run(Success(BadRequest(Text(FileRequired))), [])
    ensures file.Some? && file.value.length > 0 && discover && !register ==>
      UploadAasx(server, decode, file, register, discover) == Run(Success(BadRequest(Text(DiscoveryNeedsRegistration))), [])
  {
  }

  /** The upload is the first request whenever the guards pass; a 409 from the
      repository is answered 409 and nothing more is sent. */
  lemma UploadFirst(server: Server, decode: ShellsDecoder, file: FormFile, register: bool, discover: bool)
    requires file.length > 0 && !(discover && !register)
    ensures var r := UploadAasx(server, decode, Some(file), register, discover);
      |r.sent| > 0 && r.sent[0] == UploadRequest(file)
    ensures server([], UploadRequest(file)).Answered? && server([], UploadRequest(file)).status == 409 ==>
      UploadAasx(server, decode, Some(file), register, discover) ==
        Run(Success(Conflict(Text(AlreadyExists))), [UploadRequest(file)])
  {
  }

  /** A successful action answers the message of the way it took, and sends one request
      for the upload, two more for registration and one more for discovery. */
  lemma UploadOkMessage(server: Server, decode: ShellsDecoder, file: Option<FormFile>, register: bool, discover: bool)
    requires UploadAasx(server, decode, file, register, discover).outcome.Success?
    requires UploadAasx(server, decode, file, register, discover).outcome.value.Ok?
    ensures !(discover && !register)
    ensures UploadAasx(server, decode, file, register, discover).outcome.value.value == UploadMessage(register, discover)
    ensures |UploadAasx(server, decode, file, register, discover).sent| ==
      if register && discover then 4 else if register then 3 else 1
  {
    var p := Steps(server, decode, file, register, discover);
    assert p.Proceed?;
  }

  /** The shell the listing fetched right after the upload names last, if any. */
  function ListedLast(server: Server, decode: ShellsDecoder, file: FormFile): Option<ShellDescriptor> {
    var l := Listing(server([UploadRequest(file)], ListShells), decode);
    if l.Some? then LastOrDefault(l.value) else None
  }

  /** What a registering run sends, when it gets as far as the registry: the upload, the
      listing, and the entry built from the shell listed last, with the revision defaulting
      to "0"; the registry path and the entry's endpoint name the same shell id. */
  lemma RegistersNewestShell(server: Server, decode: ShellsDecoder, file: FormFile, discover: bool)
    requires file.length > 0
    requires |UploadAasx(server, decode, Some(file), true, discover).sent| >= 3
    ensures ListedLast(server, decode, file).Some?
    ensures var r := UploadAasx(server, decode, Some(file), true, discover);
      r.sent[1] == ListShells && r.sent[2].verb == POST && r.sent[2].body.Descriptor?
    ensures var r := UploadAasx(server, decode, Some(file), true, discover);
      var shell := ListedLast(server, decode, file).value;
      var e := r.sent[2].body.entry;
      && shell.id == Some(e.id)
      && e.idShort == shell.idShort
      && e.administration == Some(Administration(RevisionOf(shell)))
      && DecodedPath(RegistryPrefix, r.sent[2].url) == Some(e.id)
      && |e.endpoints| == 1
      && DecodedPath(ShellsPrefix(ExternalHost), e.endpoints[0].protocolInformation.href) == Some(e.id)
  {
    assert UploadAasx(server, decode, Some(file), true, discover).sent == Steps(server, decode, Some(file), true, discover).sent;
    StepsRegisterNewest(server, decode, file, discover);
  }

  /** RegistersNewestShell, stated of the steps before the final message. */
  lemma StepsRegisterNewest(server: Server, decode: ShellsDecoder, file: FormFile, discover: bool)
    requires file.length > 0
    requires |Steps(server, decode, Some(file), true, discover).sent| >= 3
    ensures ListedLast(server, decode, file).Some?
    ensures var sent := Steps(server, decode, Some(file), true, discover).sent;
      sent[1] == ListShells && sent[2].verb == POST && sent[2].body.Descriptor?
    ensures var sent := Steps(server, decode, Some(file), true, discover).sent;
      var shell := ListedLast(server, decode, file).value;
      var e := sent[2].body.entry;
      && shell.id == Some(e.id)
      && e.idShort == shell.idShort
      && e.administration == Some(Administration(RevisionOf(shell)))
      && DecodedPath(RegistryPrefix, sent[2].url) == Some(e.id)
      && |e.endpoints| == 1
      && DecodedPath(ShellsPrefix(ExternalHost), e.endpoints[0].protocolInformation.href) == Some(e.id)
  {
    var u := UploadPackage(server, file);
    assert u.Proceed?;
    var n := NewestShell(server, u.sent, decode);
    assert n.Proceed?;
    var e := EntryOf(n.value).value;
    EncodedPathRoundTrip(RegistryPrefix, e.id);
    RegistryEntryNamesShell(ExternalHost, e.id, e.idShort, e.assetKind, Some(RevisionOf(n.value)));
  }

  /** A run that links in discovery links the shell it registered: the link path names
      the registered id, and the body wraps that shell's own specific asset ids. */
  lemma LinksRegisteredShell(server: Server, decode: ShellsDecoder, file: FormFile)
    requires file.length > 0
    requires |UploadAasx(server, decode, Some(file), true, true).sent| == 4
    ensures ListedLast(server, decode, file).Some?
    ensures ListedLast(server, decode, file).value.assetInformation.Some?
    ensures UploadAasx(server, decode, Some(file), true, true).sent[2].body.Descriptor?
    ensures var r := UploadAasx(server, decode, Some(file), true, true);
      var shell := ListedLast(server, decode, file).value;
      && DecodedPath(DiscoveryLinkPrefix, r.sent[3].url) == Some(r.sent[2].body.entry.id)
      && r.sent[3].body == WrappedAssetIds(shell.assetInformation.value.specificAssetIds)
  {
    var u := UploadPackage(server, file);
    var n := NewestShell(server, u.sent, decode);
    var reg := RegisterNewest(server, n.sent, n.value);
    assert reg.Proceed?;
    EncodedPathRoundTrip(DiscoveryLinkPrefix, reg.value.id);
  }

  /** Without registration only the upload is sent. */
  lemma UploadOnly(server: Server, decode: ShellsDecoder, file: Option<FormFile>)
    ensures |UploadAasx(server, decode, file, false, false).sent| <= 1
    ensures PostsTo(UploadAasx(server, decode, file, false, false).sent, {UploadUrl})
  {
  }
}
