/** The steps the two JSON upload controllers (AASPostController and
    AASWebUiPostController) share: reading the uploaded environment file, posting its
    shells and submodels to the repository one by one, reading the fields of a shell and
    registering it. */
module JsonUpload {
  import opened Wrappers
  import opened Strings
  import opened Json
  import opened Records
  import opened Http

  const SubmodelsUrl := "http://aas-environment-v3:8081/submodels"

  const FileRequired := "JSON file is required."
  const InvalidStructure := "Invalid JSON structure."
  const RegistryFailure := "Failed to register AAS: "
  const RegistryError := "An error occurred while posting to the registry: "

  // ------------------------------------------------------------------ the file

  /** The two sections of the environment that get posted. */
  datatype Sections = Sections(shells: Json, submodels: Json)

  /** The root holds all three sections an environment file must have. */
  predicate HasSections(root: Json)
    requires root.Obj?
  {
    && Find(root.members, "assetAdministrationShells").Some?
    && Find(root.members, "submodels").Some?
    && Find(root.members, "conceptDescriptions").Some?
  }

  /** The checks before anything is posted: a non-empty file, text that parses (`parse`
      stands for `JsonDocument.Parse`, None for a JsonException), and a root object
      holding the three sections. `TryGetProperty` on a root that is not an object
      throws. */
  function ReadUpload(file: Option<string>, parse: string -> Option<Json>): (p: Phase<Sections>)
    ensures p.sent == [] && HaltsWithoutOk(p)
    ensures p.Proceed? <==>
      && !IsNullOrEmpty(file) && parse(file.value).Some?
      && parse(file.value).value.Obj? && HasSections(parse(file.value).value)
    ensures p.Proceed? ==>
      var root := parse(file.value).value;
      && Some(p.value.shells) == Find(root.members, "assetAdministrationShells")
      && Some(p.value.submodels) == Find(root.members, "submodels")
    ensures IsNullOrEmpty(file) ==> p == Halt(Success(BadRequest(Text(FileRequired))), [])
    ensures !IsNullOrEmpty(file) && parse(file.value).None? ==>
      p == Halt(Success(BadRequest(WithException("Invalid JSON file: "))), [])
    ensures (!IsNullOrEmpty(file) && parse(file.value).Some? && parse(file.value).value.Obj?
             && !HasSections(parse(file.value).value)) ==>
      p == Halt(Success(BadRequest(Text(InvalidStructure))), [])
    ensures p.Halt? && p.outcome.Thrown? <==>
      !IsNullOrEmpty(file) && parse(file.value).Some? && !parse(file.value).value.Obj?
  {
    if IsNullOrEmpty(file) then Halt(Success(BadRequest(Text(FileRequired))), [])
    else match parse(file.value)
      case None => Halt(Success(BadRequest(WithException("Invalid JSON file: "))), [])
      case Some(root) =>
        if !root.Obj? then Halt(Thrown, [])
        else if !HasSections(root) then Halt(Success(BadRequest(Text(InvalidStructure))), [])
        else Proceed(Sections(MemberOf(root, "assetAdministrationShells").value,
                              MemberOf(root, "submodels").value), [])
  }

  // ------------------------------------------------------ posting the sections

  datatype Collection = ShellCollection | SubmodelCollection

  function CollectionUrl(c: Collection): string {
    match c
    case ShellCollection => ShellsUrl
    case SubmodelCollection => SubmodelsUrl
  }

  /** The message of a failed POST; submodels are counted from 1. */
  function PostFailure(c: Collection, position: nat, content: string): string {
    match c
    case ShellCollection => "Failed to post Asset Administration Shell: " + content
    case SubmodelCollection => "Failed to post Submodel " + NatToString(position) + ": " + content
  }

  /** A reply the loop goes on after: success, or 409 Conflict (already stored). */
  predicate Accepted(reply: Reply) {
    reply.Answered? && (IsSuccessStatusCode(reply.status) || reply.status == 409)
  }

  /** Every document could be prepared for posting. */
  predicate AllPrepared(docs: seq<Result<Json>>) {
    forall i :: 0 <= i < |docs| ==> docs[i].Success?
  }

  function PostOf(c: Collection, doc: Json): Request {
    Request(POST, CollectionUrl(c), JsonText(doc))
  }

  /** The POSTs of a run of prepared documents, in order. */
  function Posts(c: Collection, docs: seq<Result<Json>>): (r: seq<Request>)
    requires AllPrepared(docs)
    ensures |r| == |docs|
    ensures forall i :: 0 <= i < |r| ==> r[i] == PostOf(c, docs[i].value)
  {
    seq(|docs|, i requires 0 <= i < |docs| => PostOf(c, docs[i].value))
  }

  /** The server accepts each of `reqs`, each one sent after `sent` and those before it. */
  predicate AllAccepted(server: Server, sent: seq<Request>, reqs: seq<Request>) {
    forall i :: 0 <= i < |reqs| ==> Accepted(server(sent + reqs[..i], reqs[i]))
  }

  /** The `foreach` loop posting one section: each document (prepared lazily, which may
      throw) is posted; a failed send throws; a 2xx or 409 reply goes on to the next;
      any other reply ends the action with that status. `position` numbers the items. */
  function PostItems(server: Server, sent: seq<Request>, c: Collection,
                     docs: seq<Result<Json>>, position: nat): (p: Phase<()>)
    ensures HaltsWithoutOk(p)
    decreases |docs|
  {
    if |docs| == 0 then Proceed((), sent)
    else match docs[0]
      case Thrown => Halt(Thrown, sent)
      case Success(doc) =>
        var req := PostOf(c, doc);
        var reply := server(sent, req);
        if !reply.Answered? then Halt(Thrown, sent + [req])
        else if Accepted(reply) then PostItems(server, sent + [req], c, docs[1..], position + 1)
        else Halt(Success(Status(reply.status, Text(PostFailure(c, position, reply.content)))), sent + [req])
  }

  lemma AllAcceptedCons(server: Server, sent: seq<Request>, reqs: seq<Request>)
    requires |reqs| > 0
    ensures AllAccepted(server, sent, reqs) <==>
      Accepted(server(sent, reqs[0])) && AllAccepted(server, sent + [reqs[0]], reqs[1..])
  {
    assert sent + reqs[..0] == sent;
    forall i | 1 <= i < |reqs|
      ensures sent + reqs[..i] == (sent + [reqs[0]]) + reqs[1..][..i - 1]
      ensures reqs[i] == reqs[1..][i - 1]
    {
      assert reqs[..i] == [reqs[0]] + reqs[1..][..i - 1];
    }
  }

  lemma PostsCons(c: Collection, docs: seq<Result<Json>>)
    requires |docs| > 0 && AllPrepared(docs)
    ensures AllPrepared(docs[1..])
    ensures Posts(c, docs) == [PostOf(c, docs[0].value)] + Posts(c, docs[1..])
  {
    assert forall i :: 1 <= i < |docs| ==> docs[i] == docs[1..][i - 1];
  }

  /** The loop gets through its section exactly when every document is prepared and
      every POST is accepted; it then has sent one POST per document, in order. */
  lemma {:induction false} PostItemsProceeds(server: Server, sent: seq<Request>, c: Collection,
                                             docs: seq<Result<Json>>, position: nat)
    ensures PostItems(server, sent, c, docs, position).Proceed? <==>
      AllPrepared(docs) && AllAccepted(server, sent, Posts(c, docs))
    ensures PostItems(server, sent, c, docs, position).Proceed? ==>
      PostItems(server, sent, c, docs, position).sent == sent + Posts(c, docs)
    decreases |docs|
  {
    if |docs| == 0 {
      assert sent + Posts(c, docs) == sent;
    } else if docs[0].Success? {
      var req := PostOf(c, docs[0].value);
      var tail := docs[1..];
      assert AllPrepared(docs) <==> AllPrepared(tail) by {
        assert forall i :: 1 <= i < |docs| ==> docs[i] == tail[i - 1];
      }
      if Accepted(server(sent, req)) {
        assert PostItems(server, sent, c, docs, position) == PostItems(server, sent + [req], c, tail, position + 1);
        PostItemsProceeds(server, sent + [req], c, tail, position + 1);
        if AllPrepared(docs) {
          PostsCons(c, docs);
          AllAcceptedCons(server, sent, Posts(c, docs));
        }
      } else if AllPrepared(docs) {
        AllAcceptedCons(server, sent, Posts(c, docs));
      }
    } else {
      assert !AllPrepared(docs);
    }
  }

  /** Item `k` is where posting stops: every earlier item was prepared and accepted, and
      item `k` could not be prepared or was not accepted. */
  predicate StopsAt(server: Server, sent: seq<Request>, c: Collection, docs: seq<Result<Json>>, k: nat) {
    && k < |docs|
    && AllPrepared(docs[..k])
    && AllAccepted(server, sent, Posts(c, docs[..k]))
    && (docs[k].Success? ==> !Accepted(server(sent + Posts(c, docs[..k]), PostOf(c, docs[k].value))))
  }

  /** What stopping at item `k` produces: a document that cannot be prepared or a
      failed POST throws; another reply names its status, and item `position + k`. */
  function StopOutcome(server: Server, sent: seq<Request>, c: Collection, docs: seq<Result<Json>>,
                       position: nat, k: nat): Phase<()>
    requires StopsAt(server, sent, c, docs, k)
  {
    var before := sent + Posts(c, docs[..k]);
    if docs[k].Thrown? then Halt(Thrown, before)
    else
      var req := PostOf(c, docs[k].value);
      var reply := server(before, req);
      if !reply.Answered? then Halt(Thrown, before + [req])
      else Halt(Success(Status(reply.status, Text(PostFailure(c, position + k, reply.content)))), before + [req])
  }

  /** The loop stops at item `k`, with what StopOutcome describes. */
  predicate HaltsAt(server: Server, sent: seq<Request>, c: Collection, docs: seq<Result<Json>>,
                    position: nat, k: nat) {
    && StopsAt(server, sent, c, docs, k)
    && PostItems(server, sent, c, docs, position) == StopOutcome(server, sent, c, docs, position, k)
  }

  /** When the loop stops, it stops at the first item that could not be prepared or was
      not accepted, with what StopOutcome describes; so a failing submodel is named by
      its position counting from `position`. */
  lemma {:induction false} PostItemsHalts(server: Server, sent: seq<Request>, c: Collection,
                                          docs: seq<Result<Json>>, position: nat)
    requires PostItems(server, sent, c, docs, position).Halt?
    ensures exists k: nat :: HaltsAt(server, sent, c, docs, position, k)
    decreases |docs|
  {
    assert docs[..0] == [];
    assert sent + Posts(c, docs[..0]) == sent;
    if docs[0].Success? {
      var req := PostOf(c, docs[0].value);
      var reply := server(sent, req);
      if Accepted(reply) {
        PostItemsHalts(server, sent + [req], c, docs[1..], position + 1);
        var k: nat :| HaltsAt(server, sent + [req], c, docs[1..], position + 1, k);
        StopsLater(server, sent, c, docs, position, k);
        assert HaltsAt(server, sent, c, docs, position, k + 1);
      } else {
        assert HaltsAt(server, sent, c, docs, position, 0);
      }
    } else {
      assert HaltsAt(server, sent, c, docs, position, 0);
    }
  }

  /** Stopping at item `k` of the tail, after an accepted first item, is stopping at
      item `k + 1`. */
  lemma StopsLater(server: Server, sent: seq<Request>, c: Collection, docs: seq<Result<Json>>,
                   position: nat, k: nat)
    requires |docs| > 0 && docs[0].Success?
    requires Accepted(server(sent, PostOf(c, docs[0].value)))
    requires StopsAt(server, sent + [PostOf(c, docs[0].value)], c, docs[1..], k)
    ensures StopsAt(server, sent, c, docs, k + 1)
    ensures StopOutcome(server, sent, c, docs, position, k + 1)
         == StopOutcome(server, sent + [PostOf(c, docs[0].value)], c, docs[1..], position + 1, k)
  {
    StopsLaterPrefix(server, sent, c, docs, k);
    assert docs[k + 1] == docs[1..][k];
  }

  /** The requests before item `k + 1` are the first item's POST followed by the
      requests before item `k` of the tail, and the loop stops there. */
  lemma StopsLaterPrefix(server: Server, sent: seq<Request>, c: Collection, docs: seq<Result<Json>>, k: nat)
    requires |docs| > 0 && docs[0].Success?
    requires Accepted(server(sent, PostOf(c, docs[0].value)))
    requires StopsAt(server, sent + [PostOf(c, docs[0].value)], c, docs[1..], k)
    ensures sent + Posts(c, docs[..k + 1]) == (sent + [PostOf(c, docs[0].value)]) + Posts(c, docs[1..][..k])
    ensures StopsAt(server, sent, c, docs, k + 1)
  {
    var req := PostOf(c, docs[0].value);
    HeadPosts(c, docs, k);
    AllAcceptedCons(server, sent, Posts(c, docs[..k + 1]));
    assert sent + Posts(c, docs[..k + 1]) == (sent + [req]) + Posts(c, docs[1..][..k]);
    assert docs[k + 1] == docs[1..][k];
  }

  /** The POSTs of the first `k + 1` documents: the first one's, then those of the first
      `k` of the rest. */
  lemma HeadPosts(c: Collection, docs: seq<Result<Json>>, k: nat)
    requires k < |docs| && docs[0].Success? && AllPrepared(docs[1..][..k])
    ensures AllPrepared(docs[..k + 1])
    ensures Posts(c, docs[..k + 1]) == [PostOf(c, docs[0].value)] + Posts(c, docs[1..][..k])
  {
    var head := docs[..k + 1];
    assert head[1..] == docs[1..][..k];
    assert AllPrepared(head) by {
      assert forall i :: 1 <= i < |head| ==> head[i] == docs[1..][..k][i - 1];
    }
    PostsCons(c, head);
  }

  /** The loop only ever posts to its collection's endpoint. */
  lemma {:induction false} PostItemsTargets(server: Server, sent: seq<Request>, c: Collection,
                                            docs: seq<Result<Json>>, position: nat, urls: set<string>)
    requires PostsTo(sent, urls) && CollectionUrl(c) in urls
    ensures PostsTo(PostItems(server, sent, c, docs, position).sent, urls)
    decreases |docs|
  {
    if |docs| > 0 && docs[0].Success? {
      var req := PostOf(c, docs[0].value);
      assert PostsTo(sent + [req], urls);
      PostItemsTargets(server, sent + [req], c, docs[1..], position + 1, urls);
    }
  }

  /** Documents posted as they are, with nothing to prepare. */
  function Verbatim(items: seq<Json>): (r: seq<Result<Json>>)
    ensures |r| == |items| && AllPrepared(r)
    ensures forall i :: 0 <= i < |r| ==> r[i] == Success(items[i])
  {
    seq(|items|, i requires 0 <= i < |items| => Success(items[i]))
  }

  /** Step 1 and step 2 of the upload: every shell (each prepared by `prepare`), then
      every submodel; `EnumerateArray` on a section that is not an array throws. The
      shells' items are what the registration steps go on with. */
  function PostSections(server: Server, sections: Sections, prepare: Json -> Result<Json>): (p: Phase<seq<Json>>)
    ensures HaltsWithoutOk(p)
  {
    match EnumerateArray(sections.shells)
    case Thrown => Halt(Thrown, [])
    case Success(shells) =>
      match PostItems(server, [], ShellCollection, Prepared(shells, prepare), 1)
      case Halt(o, s) => Halt(o, s)
      case Proceed(_, afterShells) =>
        match EnumerateArray(sections.submodels)
        case Thrown => Halt(Thrown, afterShells)
        case Success(submodels) =>
          match PostItems(server, afterShells, SubmodelCollection, Verbatim(submodels), 1)
          case Halt(o, s) => Halt(o, s)
          case Proceed(_, afterSubmodels) => Proceed(shells, afterSubmodels)
  }

  function Prepared(items: seq<Json>, prepare: Json -> Result<Json>): (r: seq<Result<Json>>)
    ensures |r| == |items|
    ensures forall i :: 0 <= i < |r| ==> r[i] == prepare(items[i])
  {
    seq(|items|, i requires 0 <= i < |items| => prepare(items[i]))
  }

  /** Both sections went through exactly when both are arrays, every shell can be
      prepared, and every shell and then every submodel POST is accepted; the requests
      are then those POSTs, shells first, and the shells go on to registration. */
  lemma PostSectionsProceeds(server: Server, sections: Sections, prepare: Json -> Result<Json>)
    ensures var p := PostSections(server, sections, prepare);
      p.Proceed? <==>
        && sections.shells.Arr? && sections.submodels.Arr?
        && AllPrepared(Prepared(sections.shells.items, prepare))
        && AllAccepted(server, [], Posts(ShellCollection, Prepared(sections.shells.items, prepare)))
        && AllAccepted(server, Posts(ShellCollection, Prepared(sections.shells.items, prepare)),
                       Posts(SubmodelCollection, Verbatim(sections.submodels.items)))
    ensures var p := PostSections(server, sections, prepare);
      p.Proceed? ==>
        && p.value == sections.shells.items
        && p.sent == Posts(ShellCollection, Prepared(sections.shells.items, prepare))
                     + Posts(SubmodelCollection, Verbatim(sections.submodels.items))
  {
    if sections.shells.Arr? {
      var docs := Prepared(sections.shells.items, prepare);
      PostItemsProceeds(server, [], ShellCollection, docs, 1);
      if PostItems(server, [], ShellCollection, docs, 1).Proceed? && sections.submodels.Arr? {
        var after := PostItems(server, [], ShellCollection, docs, 1).sent;
        assert after == Posts(ShellCollection, docs);
        PostItemsProceeds(server, after, SubmodelCollection, Verbatim(sections.submodels.items), 1);
      }
    }
  }

  /** The two sections are only ever posted to the shells and submodels endpoints. */
  lemma PostSectionsTargets(server: Server, sections: Sections, prepare: Json -> Result<Json>)
    ensures PostsTo(PostSections(server, sections, prepare).sent, {ShellsUrl, SubmodelsUrl})
  {
    var urls := {ShellsUrl, SubmodelsUrl};
    if sections.shells.Arr? {
      var docs := Prepared(sections.shells.items, prepare);
      PostItemsTargets(server, [], ShellCollection, docs, 1, urls);
      var p := PostItems(server, [], ShellCollection, docs, 1);
      if p.Proceed? && sections.submodels.Arr? {
        PostItemsTargets(server, p.sent, SubmodelCollection, Verbatim(sections.submodels.items), 1, urls);
      }
    }
  }

  // -------------------------------------------------------- a shell's fields

  /** `el.TryGetProperty(outer, out o) && o.TryGetProperty(inner, out v) ? v.GetString()
      : null`: a string found two levels down, null when either member is absent. */
  function NestedString(el: Json, outer: string, inner: string): (r: Result<Option<string>>)
    ensures r.Success? && r.value.Some? ==>
      && el.Obj? && Find(el.members, outer).Some? && Find(el.members, outer).value.Obj?
      && Find(Find(el.members, outer).value.members, inner) == Some(Str(r.value.value))
    ensures r.Thrown? <==>
      !el.Obj? || (Find(el.members, outer).Some? && StringMember(Find(el.members, outer).value, inner).Thrown?)
    ensures el.Obj? && Find(el.members, outer).None? ==> r == Success(None)
    ensures el.Obj? && Find(el.members, outer).Some? ==>
      r == StringMember(Find(el.members, outer).value, inner)
  {
    var o :- Get(el, outer);
    if o.None? then Success(None) else StringMember(o.value, inner)
  }

  /** The shell's `assetInformation.specificAssetIds`, read pair by pair, or null when
      either member is absent. */
  function AssetIdsOf(shell: Json): (r: Result<Option<seq<SpecificAssetId>>>)
    ensures r.Success? && r.value.Some? ==>
      && shell.Obj? && Find(shell.members, "assetInformation").Some?
      && Find(shell.members, "assetInformation").value.Obj?
      && Find(Find(shell.members, "assetInformation").value.members, "specificAssetIds").Some?
      && SpecificAssetIdsOf(Find(Find(shell.members, "assetInformation").value.members, "specificAssetIds").value)
         == Success(r.value.value)
    ensures r.Thrown? <==>
      || !shell.Obj?
      || (Find(shell.members, "assetInformation").Some?
          && (|| !Find(shell.members, "assetInformation").value.Obj?
              || (Find(Find(shell.members, "assetInformation").value.members, "specificAssetIds").Some?
                  && SpecificAssetIdsOf(Find(Find(shell.members, "assetInformation").value.members, "specificAssetIds").value).Thrown?)))
    ensures shell.Obj? && Find(shell.members, "assetInformation").Some?
      && Find(shell.members, "assetInformation").value.Obj?
      && Find(Find(shell.members, "assetInformation").value.members, "specificAssetIds").Some?
      && SpecificAssetIdsOf(Find(Find(shell.members, "assetInformation").value.members, "specificAssetIds").value).Success?
      ==> r == Success(Some(SpecificAssetIdsOf(Find(Find(shell.members, "assetInformation").value.members, "specificAssetIds").value).value))
    ensures shell.Obj?
      && (|| Find(shell.members, "assetInformation").None?
          || (Find(shell.members, "assetInformation").value.Obj?
              && Find(Find(shell.members, "assetInformation").value.members, "specificAssetIds").None?))
      ==> r == Success(None)
  {
    var info :- Get(shell, "assetInformation");
    if info.None? then Success(None)
    else
      var ids :- Get(info.value, "specificAssetIds");
      if ids.None? then Success(None)
      else
        var list :- SpecificAssetIdsOf(ids.value);
        Success(Some(list))
  }

  /** The fields the registration step reads from a shell; each may be null. */
  datatype ShellFields = ShellFields(
    id: Option<string>,
    revision: Option<string>,
    assetKind: Option<string>,
    specificAssetIds: Option<seq<SpecificAssetId>>,
    idShort: Option<string>)

  /** The guarded reads of `id`, `administration.revision`, `assetInformation.assetKind`,
      `assetInformation.specificAssetIds` and `idShort`. Each is null when absent, and
      throws on a member of the wrong kind. */
  function ReadShellFields(shell: Json): (r: Result<ShellFields>)
    ensures r.Success? ==> shell.Obj?
    ensures r.Success? ==> Success(r.value.id) == StringMember(shell, "id")
    ensures r.Success? ==> Success(r.value.idShort) == StringMember(shell, "idShort")
    ensures r.Success? ==> Success(r.value.revision) == NestedString(shell, "administration", "revision")
    ensures r.Success? ==> Success(r.value.assetKind) == NestedString(shell, "assetInformation", "assetKind")
    ensures r.Success? ==> Success(r.value.specificAssetIds) == AssetIdsOf(shell)
    ensures r.Success? <==>
      && StringMember(shell, "id").Success?
      && NestedString(shell, "administration", "revision").Success?
      && NestedString(shell, "assetInformation", "assetKind").Success?
      && AssetIdsOf(shell).Success?
      && StringMember(shell, "idShort").Success?
  {
    var id :- StringMember(shell, "id");
    var revision :- NestedString(shell, "administration", "revision");
    var assetKind :- NestedString(shell, "assetInformation", "assetKind");
    var assetIds :- AssetIdsOf(shell);
    var idShort :- StringMember(shell, "idShort");
    Success(ShellFields(id, revision, assetKind, assetIds, idShort))
  }

  // ------------------------------------------------------------- registering

  /** Registering one shell: its fields are read and a registry entry naming the shell on
      `host` is built (a null id throws when it is encoded), then POSTed to `registryUrl`
      inside a try block: a refused request answers 500, another reply outside 2xx
      answers its own status. */
  function RegisterShell(server: Server, sent: seq<Request>, registryUrl: string,
                         host: string, shell: Json): (p: Phase<ShellFields>)
    ensures p.Proceed? ==> p.value.id.Some?
    ensures HaltsWithoutOk(p)
    ensures p.Proceed? ==> |p.sent| == |sent| + 1 && p.sent[..|sent|] == sent
    ensures p.Proceed? ==> p.sent[|sent|].url == registryUrl && p.sent[|sent|].body.Descriptor?
    ensures p.sent == sent || (|p.sent| == |sent| + 1 && p.sent[..|sent|] == sent)
    ensures PostsTo(sent, {registryUrl}) ==> PostsTo(p.sent, {registryUrl})
  {
    match ReadShellFields(shell)
    case Thrown => Halt(Thrown, sent)
    case Success(f) =>
      match NewRegistryEntry(host, f.id, f.idShort, f.assetKind, f.revision)
      case Thrown => Halt(Thrown, sent)
      case Success(entry) =>
        var req := Request(POST, registryUrl, Descriptor(entry));
        var reply := server(sent, req);
        assert (sent + [req])[..|sent|] == sent;
        if reply.Escaped? then Halt(Thrown, sent + [req])
        else if reply.Refused? then Halt(Success(Status(500, WithException(RegistryError))), sent + [req])
        else if !IsSuccessStatusCode(reply.status) then
          Halt(Success(Status(reply.status, Text(RegistryFailure + reply.content))), sent + [req])
        else Proceed(f, sent + [req])
  }

  /** Registration throws before anything is sent exactly for a shell whose fields
      cannot be read or whose id is missing or null; otherwise one descriptor is POSTed:
      a refused POST answers 500, a rejected one answers its own status, and any other
      exception of the send escapes the try block. */
  lemma RegisterShellOutcomes(server: Server, sent: seq<Request>, registryUrl: string,
                              host: string, shell: Json)
    ensures var p := RegisterShell(server, sent, registryUrl, host, shell);
      p == Halt(Thrown, sent) <==>
        ReadShellFields(shell).Thrown? || StringMember(shell, "id") == Success(None)
    ensures var p := RegisterShell(server, sent, registryUrl, host, shell);
      p != Halt(Thrown, sent) ==>
        && |p.sent| == |sent| + 1 && p.sent[..|sent|] == sent
        && p.sent[|sent|].verb == POST && p.sent[|sent|].url == registryUrl
        && p.sent[|sent|].body.Descriptor?
        && var reply := server(sent, p.sent[|sent|]);
           && (reply.Escaped? <==> p.Halt? && p.outcome.Thrown?)
           && (reply.Refused? ==> p.outcome == Success(Status(500, WithException(RegistryError))))
           && (reply.Answered? && !IsSuccessStatusCode(reply.status) ==>
                 p.outcome == Success(Status(reply.status, Text(RegistryFailure + reply.content))))
           && (p.Proceed? <==> Succeeded(reply))
  {
  }

  /** The descriptor a registration POSTs names the shell: its id is the shell's `id`
      string, its one endpoint's href decodes back to that id on `host`, idShort and
      assetKind are the shell's, and it has an administration block exactly when the
      shell has an `administration.revision` string, holding that revision. */
  lemma RegisteredEntryDescribesShell(server: Server, sent: seq<Request>, registryUrl: string,
                                      host: string, shell: Json)
    requires var p := RegisterShell(server, sent, registryUrl, host, shell);
      p.Proceed? || p.outcome.Success?
    ensures var p := RegisterShell(server, sent, registryUrl, host, shell);
      var e := p.sent[|sent|].body.entry;
      && shell.Obj?
      && Find(shell.members, "id") == Some(Str(e.id))
      && StringMember(shell, "idShort") == Success(e.idShort)
      && NestedString(shell, "assetInformation", "assetKind") == Success(e.assetKind)
      && |e.endpoints| == 1
      && DecodedPath(ShellsPrefix(host), e.endpoints[0].protocolInformation.href) == Some(e.id)
      && (e.administration.Some? <==> NestedString(shell, "administration", "revision").value.Some?)
      && (e.administration.Some? ==>
            NestedString(shell, "administration", "revision") == Success(Some(e.administration.value.revision)))
  {
    var f := ReadShellFields(shell).value;
    RegistryEntryNamesShell(host, f.id.value, f.idShort, f.assetKind, f.revision);
  }
}
