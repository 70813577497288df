/** The web UI's AASX upload: one package, or every package of a directory, is uploaded to
    the repository and optionally linked in the discovery service under an id made from a
    specific asset id the user names (for a directory, the file's own name). Nothing is
    registered. */
module WebUiUpload {
  import opened Wrappers
  import opened Strings
  import opened Records
  import opened Http
  import opened AasxUpload

  const SpecificAssetIdRequired := "Specific Asset ID is required."
  const DiscoveryFailure := "Failed to link in Discovery: "
  const DiscoveryError := "An error occurred while linking in Discovery: "
  const DirectoryRequired := "Valid directory path is required."
  const NoPackages := "No AASX files found in the specified directory."
  /** The directory under which the packages are mounted. */
  const MountPoint := "/app/Verwaltungsschalen"

  const AasIdPrefix := "https://aas.murrelektronik.com/"
  const AasIdSuffix := "/aas/1/0"

  /** The shell id the discovery link is filed under, made from a specific asset id. */
  function AasId(specificAssetId: string): string {
    AasIdPrefix + specificAssetId + AasIdSuffix
  }

  /** The specific asset id a shell id was made from, or None for an id of another shape. */
  function SpecificAssetIdOf(aasId: string): Option<string> {
    if |aasId| < |AasIdPrefix| + |AasIdSuffix|
       || aasId[..|AasIdPrefix|] != AasIdPrefix
       || aasId[|aasId| - |AasIdSuffix|..] != AasIdSuffix
    then None
    else Some(aasId[|AasIdPrefix|..|aasId| - |AasIdSuffix|])
  }

  /** The shell id gives back the specific asset id it was made from. */
  lemma AasIdRoundTrip(specificAssetId: string)
    ensures SpecificAssetIdOf(AasId(specificAssetId)) == Some(specificAssetId)
  {
    var id := AasId(specificAssetId);
    assert id[..|AasIdPrefix|] == AasIdPrefix;
    assert id[|id| - |AasIdSuffix|..] == AasIdSuffix;
    assert id[|AasIdPrefix|..|id| - |AasIdSuffix|] == specificAssetId;
  }

  /** The POST linking a specific asset id in discovery. */
  function LinkRequest(specificAssetId: string): Request {
    Request(POST, EncodedPath(DiscoveryLinkPrefix, AasId(specificAssetId)), AssetIds(Some(DiscoveryEntry(specificAssetId))))
  }

  /** The link names the specific asset id twice: in its path, through the shell id, and
      in its one discovery pair. */
  lemma LinkRequestNames(specificAssetId: string)
    ensures var req := LinkRequest(specificAssetId);
      && req.verb == POST
      && DecodedPath(DiscoveryLinkPrefix, req.url) == Some(AasId(specificAssetId))
      && SpecificAssetIdOf(AasId(specificAssetId)) == Some(specificAssetId)
      && req.body.AssetIds? && req.body.ids.Some? && |req.body.ids.value| == 1
      && req.body.ids.value[0].name == Some(specificAssetId)
      && AssetName(req.body.ids.value[0].value.value) == Some(specificAssetId)
  {
    EncodedPathRoundTrip(DiscoveryLinkPrefix, AasId(specificAssetId));
    AasIdRoundTrip(specificAssetId);
  }

  /** The upload, sent after `sent`: here every failure status, 409 included, is passed
      on with the repository's text, and a refused request answers 500; any other
      exception of the send escapes the try block. */
  function UploadPackageAfter(server: Server, sent: seq<Request>, file: FormFile): (p: Phase<()>)
    ensures HaltsWithoutOk(p)
    ensures p.sent == sent + [UploadRequest(file)]
    ensures p.Proceed? <==> Succeeded(server(sent, UploadRequest(file)))
    ensures p.Halt? && p.outcome.Thrown? <==> server(sent, UploadRequest(file)).Escaped?
    ensures server(sent, UploadRequest(file)).Refused? ==>
      p.outcome == Success(Status(500, WithException(UploadError)))
    ensures var reply := server(sent, UploadRequest(file));
      reply.Answered? && !IsSuccessStatusCode(reply.status) ==>
        p.outcome == Success(Status(reply.status, Text(UploadFailure + reply.content)))
  {
    var req := UploadRequest(file);
    var reply := server(sent, req);
    if reply.Escaped? then Halt(Thrown, sent + [req])
    else if reply.Refused? then Halt(Success(Status(500, WithException(UploadError))), sent + [req])
    else if !IsSuccessStatusCode(reply.status) then
      Halt(Success(Status(reply.status, Text(UploadFailure + reply.content))), sent + [req])
    else Proceed((), sent + [req])
  }

  /** The discovery link: a refused request answers 500, a failure status is passed on
      with the discovery service's text, any other exception of the send escapes. */
  function Link(server: Server, sent: seq<Request>, specificAssetId: string): (p: Phase<()>)
    ensures HaltsWithoutOk(p)
    ensures p.sent == sent + [LinkRequest(specificAssetId)]
    ensures p.Proceed? <==> Succeeded(server(sent, LinkRequest(specificAssetId)))
    ensures p.Halt? && p.outcome.Thrown? <==> server(sent, LinkRequest(specificAssetId)).Escaped?
    ensures server(sent, LinkRequest(specificAssetId)).Refused? ==>
      p.outcome == Success(Status(500, WithException(DiscoveryError)))
    ensures var reply := server(sent, LinkRequest(specificAssetId));
      reply.Answered? && !IsSuccessStatusCode(reply.status) ==>
        p.outcome == Success(Status(reply.status, Text(DiscoveryFailure + reply.content)))
  {
    var req := LinkRequest(specificAssetId);
    var reply := server(sent, req);
    if reply.Escaped? then Halt(Thrown, sent + [req])
    else if reply.Refused? then Halt(Success(Status(500, WithException(DiscoveryError))), sent + [req])
    else if !IsSuccessStatusCode(reply.status) then
      Halt(Success(Status(reply.status, Text(DiscoveryFailure + reply.content))), sent + [req])
    else Proceed((), sent + [req])
  }

  /** The steps of ProcessAASXFile, after the requests already in `sent`. */
  function ProcessSteps(server: Server, sent: seq<Request>, file: Option<FormFile>,
                        specificAssetId: Option<string>, discover: bool): (p: Phase<()>)
    ensures HaltsWithoutOk(p)
    ensures |p.sent| >= |sent| && p.sent[..|sent|] == sent
    ensures p.Halt? && p.outcome.Thrown? <==> |p.sent| > |sent| && EndsEscaped(server, p.sent)
  {
    if file.None? || file.value.length == 0 then Halt(Success(BadRequest(Text(FileRequired))), sent)
    else if IsNullOrWhiteSpace(specificAssetId) then Halt(Success(BadRequest(Text(SpecificAssetIdRequired))), sent)
    else
      var u := UploadPackageAfter(server, sent, file.value);
      assert u.sent[..|u.sent| - 1] == sent;
      if u.Halt? || !discover then u
      else
        var l := Link(server, u.sent, specificAssetId.value);
        assert l.sent[..|l.sent| - 1] == u.sent;
        assert l.sent[..|sent|] == u.sent[..|sent|];
        l
  }

  /** The Ok message: whether the package was linked. */
  function ProcessMessage(discover: bool): string {
    if discover then "AASX uploaded and linked in Discovery." else "AASX uploaded."
  }

  /** ProcessAASXFile: it catches the HttpRequestException of either request, so it
      throws exactly when the last request it sent threw anything else. */
  function Process(server: Server, sent: seq<Request>, file: Option<FormFile>,
                   specificAssetId: Option<string>, discover: bool): (r: Run<string>)
    ensures r.outcome.Thrown? <==> |r.sent| > |sent| && EndsEscaped(server, r.sent)
    ensures |r.sent| >= |sent| && r.sent[..|sent|] == sent
  {
    Finish(ProcessSteps(server, sent, file, specificAssetId, discover), ProcessMessage(discover))
  }

  /** What one package leads to: the guards send nothing; otherwise the upload, then the
      link when asked, are sent after the earlier requests; Ok, with the message saying
      whether it was linked, exactly when every request sent succeeded. */
  lemma ProcessOutcomes(server: Server, sent: seq<Request>, file: Option<FormFile>,
                        specificAssetId: Option<string>, discover: bool)
    ensures var r := Process(server, sent, file, specificAssetId, discover);
      file.None? || file.value.length == 0 ==> r == Run(Success(BadRequest(Text(FileRequired))), sent)
    ensures var r := Process(server, sent, file, specificAssetId, discover);
      file.Some? && file.value.length > 0 && IsNullOrWhiteSpace(specificAssetId) ==>
        r == Run(Success(BadRequest(Text(SpecificAssetIdRequired))), sent)
    ensures var r := Process(server, sent, file, specificAssetId, discover);
      file.Some? && file.value.length > 0 && !IsNullOrWhiteSpace(specificAssetId) ==>
        && |r.sent| > |sent| && r.sent[..|sent|] == sent
        && r.sent[|sent|] == UploadRequest(file.value)
        && |r.sent| <= |sent| + (if discover then 2 else 1)
        && (|r.sent| == |sent| + 2 ==> r.sent[|sent| + 1] == LinkRequest(specificAssetId.value))
        && (r.outcome.Success? && r.outcome.value.Ok? <==>
              forall i :: |sent| <= i < |r.sent| ==> Succeeded(server(r.sent[..i], r.sent[i])))
        && (r.outcome.Success? && r.outcome.value.Ok? ==>
              r.outcome.value.value == ProcessMessage(discover)
              && |r.sent| == |sent| + (if discover then 2 else 1))
  {
    var r := Process(server, sent, file, specificAssetId, discover);
    if file.Some? && file.value.length > 0 && !IsNullOrWhiteSpace(specificAssetId) {
      var u := UploadPackageAfter(server, sent, file.value);
      assert r.sent[..|sent|] == sent;
      if u.Proceed? && discover {
        assert r.sent[..|sent| + 1] == u.sent;
      }
    }
  }

  /** UploadAASX */
  function UploadAasx(server: Server, file: Option<FormFile>, specificAssetId: Option<string>,
                      discover: bool): (r: Run<string>)
    ensures r.outcome.Thrown? <==> EndsEscaped(server, r.sent)
  {
    Process(server, [], file, specificAssetId, discover)
  }

  /** `Path.Combine(MountPoint, directoryPath)`: an empty path adds nothing, a rooted path
      replaces the mount point, any other is joined to it with a separator. */
  function ContainerPath(directoryPath: string): (r: string)
    ensures |directoryPath| > 0 && directoryPath[0] == '/' ==> r == directoryPath
    ensures |directoryPath| > 0 && directoryPath[0] != '/' ==>
      |r| > |MountPoint| && r[..|MountPoint|] == MountPoint && r[|MountPoint|] == '/'
      && r[|MountPoint| + 1..] == directoryPath
  {
    if |directoryPath| == 0 then MountPoint
    else if directoryPath[0] == '/' then directoryPath
    else MountPoint + "/" + directoryPath
  }

  /** The packages of a directory: None when the directory does not exist, otherwise the
      `*.aasx` files in the order `Directory.GetFiles` lists them. */
  type Packages = string -> Option<seq<FormFile>>

  /** Each package in turn, after the requests the earlier ones sent, under its own file
      name as the specific asset id; the results are the action results' type names. A
      package whose processing throws ends the loop with that exception. */
  function ProcessAll(server: Server, sent: seq<Request>, files: seq<FormFile>, discover: bool): (r: (Result<seq<string>>, seq<Request>))
    ensures r.0.Success? ==> |r.0.value| == |files|
    ensures |r.1| >= |sent| && r.1[..|sent|] == sent
    ensures r.0.Thrown? ==> |r.1| > |sent| && EndsEscaped(server, r.1)
    decreases |files|
  {
    if |files| == 0 then (Success([]), sent)
    else
      var first := Process(server, sent, Some(files[0]), Some(files[0].fileName), discover);
      if first.outcome.Thrown? then (Thrown, first.sent)
      else
        var rest := ProcessAll(server, first.sent, files[1..], discover);
        assert rest.1[..|sent|] == first.sent[..|sent|];
        (if rest.0.Success? then Success([TypeName(first.outcome.value)] + rest.0.value) else Thrown, rest.1)
  }

  /** The requests sent before package `i` is processed. */
  function SentBefore(server: Server, sent: seq<Request>, files: seq<FormFile>, discover: bool, i: nat): seq<Request>
    requires i <= |files|
  {
    ProcessAll(server, sent, files[..i], discover).1
  }

  /** When the loop goes through, the result for package `i` is the result of processing
      that package alone, after the requests of the packages before it. */
  lemma {:induction false} ProcessAllAt(server: Server, sent: seq<Request>, files: seq<FormFile>,
                                        discover: bool, i: nat)
    requires i < |files|
    requires ProcessAll(server, sent, files, discover).0.Success?
    ensures Process(server, SentBefore(server, sent, files, discover, i),
                    Some(files[i]), Some(files[i].fileName), discover).outcome.Success?
    ensures ProcessAll(server, sent, files, discover).0.value[i] ==
      TypeName(Process(server, SentBefore(server, sent, files, discover, i),
                       Some(files[i]), Some(files[i].fileName), discover).outcome.value)
    decreases i
  {
    var first := Process(server, sent, Some(files[0]), Some(files[0].fileName), discover);
    ProcessAllCons(server, sent, files, discover);
    if i > 0 {
      ProcessAllAt(server, first.sent, files[1..], discover, i - 1);
      SentBeforeCons(server, sent, files, discover, i);
      assert files[1..][i - 1] == files[i];
    } else {
      assert files[..0] == [];
    }
  }

  /** A loop that goes through has processed its first package without an exception,
      and goes through the rest after it. */
  lemma ProcessAllCons(server: Server, sent: seq<Request>, files: seq<FormFile>, discover: bool)
    requires |files| > 0
    requires ProcessAll(server, sent, files, discover).0.Success?
    ensures var first := Process(server, sent, Some(files[0]), Some(files[0].fileName), discover);
      && first.outcome.Success?
      && ProcessAll(server, first.sent, files[1..], discover).0.Success?
      && ProcessAll(server, sent, files, discover).0.value
         == [TypeName(first.outcome.value)] + ProcessAll(server, first.sent, files[1..], discover).0.value
  {
  }

  /** The requests before package `i > 0` are those before package `i - 1` of the rest,
      once the first package has been processed. */
  lemma SentBeforeCons(server: Server, sent: seq<Request>, files: seq<FormFile>, discover: bool, i: nat)
    requires 0 < i <= |files|
    requires Process(server, sent, Some(files[0]), Some(files[0].fileName), discover).outcome.Success?
    ensures SentBefore(server, sent, files, discover, i)
         == SentBefore(server, Process(server, sent, Some(files[0]), Some(files[0].fileName), discover).sent,
                       files[1..], discover, i - 1)
  {
    assert files[..i][1..] == files[1..][..i - 1];
    assert files[..i][0] == files[0];
  }

  /** UploadAASXDirectory: a null path throws in `Path.Combine`; a missing directory and
      an empty one answer 400 before anything is sent; an exception out of a package's
      processing escapes the loop. */
  function UploadDirectory(server: Server, packages: Packages, directoryPath: Option<string>,
                           discover: bool): (r: Run<seq<string>>)
    ensures directoryPath.None? ==> r == Run(Thrown, [])
    ensures r.outcome.Thrown? ==> directoryPath.None? || EndsEscaped(server, r.sent)
    ensures directoryPath.Some? && packages(ContainerPath(directoryPath.value)).None? ==>
      r == Run(Success(BadRequest(Text(DirectoryRequired))), [])
    ensures directoryPath.Some? && packages(ContainerPath(directoryPath.value)) == Some([]) ==>
      r == Run(Success(BadRequest(Text(NoPackages))), [])
    ensures r.outcome.Success? && r.outcome.value.Ok? ==>
      && directoryPath.Some?
      && var files := packages(ContainerPath(directoryPath.value));
      && files.Some? && |files.value| > 0
      && |r.outcome.value.value| == |files.value|
  {
    if directoryPath.None? then Run(Thrown, [])
    else
      match packages(ContainerPath(directoryPath.value))
      case None => Run(Success(BadRequest(Text(DirectoryRequired))), [])
      case Some(files) =>
        if |files| == 0 then Run(Success(BadRequest(Text(NoPackages))), [])
        else
          var all := ProcessAll(server, [], files, discover);
          Run(if all.0.Success? then Success(Ok(all.0.value)) else Thrown, all.1)
  }

  /** A server that accepts every request. */
  function AcceptAll(sent: seq<Request>, req: Request): Reply {
    Answered(200, "")
  }

  /** When every request succeeds and no package is empty, every package is reported Ok,
      each having sent its upload and, when asked, its link. */
  lemma {:induction false} AcceptedPackagesAllOk(sent: seq<Request>, files: seq<FormFile>, discover: bool)
    requires forall i :: 0 <= i < |files| ==> files[i].length > 0 && !IsNullOrWhiteSpace(Some(files[i].fileName))
    ensures var r := ProcessAll(AcceptAll, sent, files, discover);
      && r.0.Success?
      && (forall i :: 0 <= i < |r.0.value| ==> r.0.value[i] == TypeName(Ok("")))
      && |r.1| == |sent| + |files| * (if discover then 2 else 1)
    decreases |files|
  {
    if |files| > 0 {
      var first := Process(AcceptAll, sent, Some(files[0]), Some(files[0].fileName), discover);
      assert first.outcome.value.Ok?;
      assert |first.sent| == |sent| + (if discover then 2 else 1);
      AcceptedPackagesAllOk(first.sent, files[1..], discover);
    }
  }
}
