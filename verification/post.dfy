/** AASPostController.UploadJSON: an environment file's shells and submodels are posted to
    the repository; with `register`, each shell is then registered with an endpoint on
    the repository's internal host, and with `discover` as well, linked in discovery
    under its specificAssetIds right after its registration. */
module JsonPost {
  import opened Wrappers
  import opened Strings
  import opened Json
  import opened Records
  import opened Http
  import opened JsonUpload

  const RegistryUrl := "http://aas-registry-v3:8080/api/v3.0/shell-descriptors"
  const DiscoveryFailure := "Failed to link in Discovery: "

  const LinkedMessage := "JSON uploaded, registered and linked in Discovery."
  const RegisteredMessage := "JSON uploaded and registered."
  const UploadedMessage := "JSON uploaded."

  /** Linking a registered shell: the shell's specificAssetIds list, null when it has
      none, is POSTed to the link endpoint of its encoded id. No try block surrounds the
      request, so a failed send throws; a reply outside 2xx answers its own status. */
  function LinkShell(server: Server, sent: seq<Request>, f: ShellFields): (p: Phase<()>)
    requires f.id.Some?
    ensures |p.sent| == |sent| + 1 && p.sent[..|sent|] == sent
    ensures p.sent[|sent|] == Request(POST, EncodedPath(DiscoveryLinkPrefix, f.id.value), AssetIds(f.specificAssetIds))
    ensures p.Proceed? <==> Succeeded(server(sent, p.sent[|sent|]))
    ensures !server(sent, p.sent[|sent|]).Answered? ==> p.outcome == Thrown
    ensures server(sent, p.sent[|sent|]).Answered? && !Succeeded(server(sent, p.sent[|sent|])) ==>
      p.outcome == Success(Status(server(sent, p.sent[|sent|]).status,
                                  Text(DiscoveryFailure + server(sent, p.sent[|sent|]).content)))
    ensures HaltsWithoutOk(p)
  {
    var req := Request(POST, EncodedPath(DiscoveryLinkPrefix, f.id.value), AssetIds(f.specificAssetIds));
    var reply := server(sent, req);
    assert (sent + [req])[..|sent|] == sent;
    if !reply.Answered? then Halt(Thrown, sent + [req])
    else if !IsSuccessStatusCode(reply.status) then
      Halt(Success(Status(reply.status, Text(DiscoveryFailure + reply.content))), sent + [req])
    else Proceed((), sent + [req])
  }

  /** The `register` branch: each shell in turn is registered and, with `discover`,
      linked; the first failure ends the action. */
  function RegisterAll(server: Server, sent: seq<Request>, shells: seq<Json>, discover: bool): (p: Phase<()>)
    ensures HaltsWithoutOk(p)
    decreases |shells|
  {
    if |shells| == 0 then Proceed((), sent)
    else
      match RegisterShell(server, sent, RegistryUrl, InternalHost, shells[0])
      case Halt(o, s) => Halt(o, s)
      case Proceed(f, registered) =>
        if !discover then RegisterAll(server, registered, shells[1..], discover)
        else
          match LinkShell(server, registered, f)
          case Halt(o, s) => Halt(o, s)
          case Proceed(_, linked) => RegisterAll(server, linked, shells[1..], discover)
  }

  /** The shell in the repository's raw text, posted as it is. */
  function Unchanged(shell: Json): Result<Json> {
    Success(shell)
  }

  /** Everything before the final message. */
  function Steps(server: Server, parse: string -> Option<Json>, file: Option<string>,
                 register: bool, discover: bool): (p: Phase<()>)
    ensures HaltsWithoutOk(p)
  {
    match ReadUpload(file, parse)
    case Halt(o, s) => Halt(o, s)
    case Proceed(sections, _) =>
      match PostSections(server, sections, Unchanged)
      case Halt(o, s) => Halt(o, s)
      case Proceed(shells, posted) =>
        if register then RegisterAll(server, posted, shells, discover) else Proceed((), posted)
  }

  /** The message as written: every registering run claims a discovery link. */
  function AsWrittenMessage(register: bool): string {
    if register then LinkedMessage else UploadedMessage
  }

  /** UploadJSON as written. */
  function UploadJson(server: Server, parse: string -> Option<Json>, file: Option<string>,
                      register: bool, discover: bool): (r: Run<string>)
    ensures IsNullOrEmpty(file) ==> r == Run(Success(BadRequest(Text(FileRequired))), [])
    ensures r.outcome.Success? && r.outcome.value.Ok? ==>
      (EndsWith(r.outcome.value.value, "linked in Discovery.") <==> register)
  {
    Finish(Steps(server, parse, file, register, discover), AsWrittenMessage(register))
  }

  /** The message this controller evidently means: discovery is claimed only when it was
      performed, which takes both flags. */
  function IntendedMessage(register: bool, discover: bool): string {
    if register && discover then LinkedMessage
    else if register then RegisteredMessage
    else UploadedMessage
  }

  /** UploadJSON with the intended message. */
  function UploadJsonCorrected(server: Server, parse: string -> Option<Json>, file: Option<string>,
                               register: bool, discover: bool): Run<string>
  {
    Finish(Steps(server, parse, file, register, discover), IntendedMessage(register, discover))
  }

  // ---------------------------------------------------------------- properties

  /** A missing or empty file, text that does not parse, or a root object missing one of
      the three sections answers BadRequest before any request is sent. */
  lemma UploadGuards(server: Server, parse: string -> Option<Json>, file: Option<string>,
                     register: bool, discover: bool)
    ensures var run := UploadJson(server, parse, file, register, discover);
      && (IsNullOrEmpty(file) ==> run == Run(Success(BadRequest(Text(FileRequired))), []))
      && (!IsNullOrEmpty(file) && parse(file.value).None? ==>
            run == Run(Success(BadRequest(WithException("Invalid JSON file: "))), []))
      && (!IsNullOrEmpty(file) && parse(file.value).Some? && parse(file.value).value.Obj?
          && !HasSections(parse(file.value).value) ==>
            run == Run(Success(BadRequest(Text(InvalidStructure))), []))
  {
  }

  /** The register branch sends only registry requests when it does not discover. */
  lemma {:induction false} RegisterAllTargets(server: Server, sent: seq<Request>, shells: seq<Json>,
                                              urls: set<string>)
    requires PostsTo(sent, urls) && RegistryUrl in urls
    ensures PostsTo(RegisterAll(server, sent, shells, false).sent, urls)
    decreases |shells|
  {
    if |shells| > 0 {
      var p := RegisterShell(server, sent, RegistryUrl, InternalHost, shells[0]);
      RegisterShellTargets(server, sent, shells[0], urls);
      if p.Proceed? {
        RegisterAllTargets(server, p.sent, shells[1..], urls);
      }
    }
  }

  lemma RegisterShellTargets(server: Server, sent: seq<Request>, shell: Json, urls: set<string>)
    requires PostsTo(sent, urls) && RegistryUrl in urls
    ensures PostsTo(RegisterShell(server, sent, RegistryUrl, InternalHost, shell).sent, urls)
  {
    var p := RegisterShell(server, sent, RegistryUrl, InternalHost, shell);
    RegisterShellOutcomes(server, sent, RegistryUrl, InternalHost, shell);
    if !(p.Halt? && p.outcome.Thrown?) {
      assert p.sent == sent + [p.sent[|sent|]];
    }
  }

  /** Every shell is registered once, and linked once when discovering: a run of the
      register branch that goes through sends one or two requests per shell. */
  lemma {:induction false} RegisterAllCount(server: Server, sent: seq<Request>, shells: seq<Json>, discover: bool)
    requires RegisterAll(server, sent, shells, discover).Proceed?
    ensures |RegisterAll(server, sent, shells, discover).sent| == |sent| + (if discover then 2 else 1) * |shells|
    decreases |shells|
  {
    if |shells| > 0 {
      var p := RegisterShell(server, sent, RegistryUrl, InternalHost, shells[0]);
      if discover {
        var q := LinkShell(server, p.sent, p.value);
        RegisterAllCount(server, q.sent, shells[1..], discover);
      } else {
        RegisterAllCount(server, p.sent, shells[1..], discover);
      }
    }
  }

  /** Unless it both registers and discovers, a run sends nothing to the discovery
      service: every request goes to the shells, submodels or registry endpoint, and
      without `register` only to the first two. */
  lemma StepsTargets(server: Server, parse: string -> Option<Json>, file: Option<string>,
                     register: bool, discover: bool)
    requires !(register && discover)
    ensures PostsTo(Steps(server, parse, file, register, discover).sent, {ShellsUrl, SubmodelsUrl, RegistryUrl})
    ensures !register ==> PostsTo(Steps(server, parse, file, register, discover).sent, {ShellsUrl, SubmodelsUrl})
  {
    var read := ReadUpload(file, parse);
    if read.Proceed? {
      var posted := PostSections(server, read.value, Unchanged);
      PostSectionsTargets(server, read.value, Unchanged);
      assert PostsTo(posted.sent, {ShellsUrl, SubmodelsUrl, RegistryUrl});
      if posted.Proceed? && register {
        RegisterAllTargets(server, posted.sent, posted.value, {ShellsUrl, SubmodelsUrl, RegistryUrl});
      }
    }
  }

  /** Without `register` nothing reaches the registry or the discovery service, whatever
      `discover` says, and a run that goes through answers "JSON uploaded.". */
  lemma UploadWithoutRegister(server: Server, parse: string -> Option<Json>, file: Option<string>, discover: bool)
    ensures var run := UploadJson(server, parse, file, false, discover);
      && PostsTo(run.sent, {ShellsUrl, SubmodelsUrl})
      && (run.outcome.Success? && run.outcome.value.Ok? ==> run.outcome.value == Ok(UploadedMessage))
  {
    StepsTargets(server, parse, file, false, discover);
  }

  /** The discovery link of a registered shell carries the shell's own
      `assetInformation.specificAssetIds`, pair by pair in order (null when the shell
      has none), under the encoded id of the shell. */
  lemma LinkCarriesShellIds(server: Server, sent: seq<Request>, shell: Json)
    requires RegisterShell(server, sent, RegistryUrl, InternalHost, shell).Proceed?
    ensures var p := RegisterShell(server, sent, RegistryUrl, InternalHost, shell);
      var q := LinkShell(server, p.sent, p.value);
      && StringMember(shell, "id") == Success(Some(p.value.id.value))
      && q.sent[|p.sent|] == Request(POST, EncodedPath(DiscoveryLinkPrefix, p.value.id.value),
                                     AssetIds(AssetIdsOf(shell).value))
      && DecodedPath(DiscoveryLinkPrefix, q.sent[|p.sent|].url) == Some(p.value.id.value)
  {
    var p := RegisterShell(server, sent, RegistryUrl, InternalHost, shell);
    EncodedPathRoundTrip(DiscoveryLinkPrefix, p.value.id.value);
  }

  /** The registry entry of a shell points at the repository's internal host. */
  lemma RegisteredHrefIsInternal(server: Server, sent: seq<Request>, shell: Json)
    requires RegisterShell(server, sent, RegistryUrl, InternalHost, shell).Proceed?
    ensures var p := RegisterShell(server, sent, RegistryUrl, InternalHost, shell);
      var e := p.sent[|sent|].body.entry;
      && Find(shell.members, "id") == Some(Str(e.id))
      && |e.endpoints| == 1
      && DecodedPath(ShellsPrefix(InternalHost), e.endpoints[0].protocolInformation.href) == Some(e.id)
  {
    RegisteredEntryDescribesShell(server, sent, RegistryUrl, InternalHost, shell);
  }

  // ------------------------------------------------------------------- finding

  /** As written, registering without discovering still claims a discovery link: the
      run answers the "linked in Discovery" message although no request went to the
      discovery service (every request went to the shells, submodels or registry
      endpoint). */
  lemma RegisterWithoutDiscoverClaimsLink(server: Server, parse: string -> Option<Json>, file: Option<string>)
    ensures var run := UploadJson(server, parse, file, true, false);
      && PostsTo(run.sent, {ShellsUrl, SubmodelsUrl, RegistryUrl})
      && (run.outcome.Success? && run.outcome.value.Ok? ==> run.outcome.value == Ok(LinkedMessage))
    ensures Contains(LinkedMessage, "linked in Discovery")
  {
    StepsTargets(server, parse, file, true, false);
    LinkedMessageClaim();
  }

  /** The claim inside the message, kept apart so that the literal's indexing stays out
      of the run's proof. */
  lemma LinkedMessageClaim()
    ensures Contains(LinkedMessage, "linked in Discovery")
  {
    assert LinkedMessage[30..49] == "linked in Discovery";
    assert OccursAt(LinkedMessage, "linked in Discovery", 30);
  }

  /** An environment with three empty sections. */
  function EmptyEnvironment(text: string): Option<Json> {
    Some(Obj([Member("assetAdministrationShells", Arr([])), Member("submodels", Arr([])),
              Member("conceptDescriptions", Arr([]))]))
  }

  /** A server that refuses every request. */
  function RefuseAll(sent: seq<Request>, req: Request): Reply {
    Refused
  }

  /** A concrete run showing it: with nothing to post and no service reachable, a
      request to register but not to discover answers that the upload was linked in
      discovery, having sent no request at all. */
  lemma LinkClaimedWithoutRequests()
    ensures UploadJson(RefuseAll, EmptyEnvironment, Some("{}"), true, false)
         == Run(Success(Ok(LinkedMessage)), [])
  {
    var sections := ReadUpload(Some("{}"), EmptyEnvironment).value;
    assert sections == Sections(Arr([]), Arr([]));
  }

  /** With the intended message, a run that goes through claims a discovery link exactly
      when it both registered and discovered, claims a registration exactly when it
      registered, and without both flags sends nothing to the discovery service. */
  lemma IntendedMessageTruthful(server: Server, parse: string -> Option<Json>, file: Option<string>,
                                register: bool, discover: bool)
    ensures var run := UploadJsonCorrected(server, parse, file, register, discover);
      run.outcome.Success? && run.outcome.value.Ok? ==>
        && (run.outcome.value.value == LinkedMessage <==> register && discover)
        && (run.outcome.value.value in {LinkedMessage, RegisteredMessage} <==> register)
    ensures var run := UploadJsonCorrected(server, parse, file, register, discover);
      !(register && discover) ==> PostsTo(run.sent, {ShellsUrl, SubmodelsUrl, RegistryUrl})
  {
    if !(register && discover) {
      StepsTargets(server, parse, file, register, discover);
    }
  }

  /** The same concrete run with the intended message answers that the upload was
      registered, and claims no link. */
  lemma IntendedMessageOnEmptyEnvironment()
    ensures UploadJsonCorrected(RefuseAll, EmptyEnvironment, Some("{}"), true, false)
         == Run(Success(Ok(RegisteredMessage)), [])
  {
    var sections := ReadUpload(Some("{}"), EmptyEnvironment).value;
    assert sections == Sections(Arr([]), Arr([]));
  }
}
