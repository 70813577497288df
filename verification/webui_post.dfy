/** AASWebUiPostController: the web UI's variant of the JSON upload. Before a shell is
    posted, an empty first displayName text is replaced by the shell's idShort in English
    and German; shells are registered with an endpoint on the host a browser reaches;
    discovery is a separate pass that links each shell's globalAssetId, independently of
    registration; and the final message states both flags. Also here: the log
    truncation helper and the semanticId extraction of the submodel-registry upload. */
module WebUiPost {
  import opened Wrappers
  import opened Strings
  import opened Json
  import opened Records
  import opened Http
  import opened JsonUpload

  const RegistryUrl := "http://aas-registry-v3:8080/shell-descriptors"
  const DiscoveryIdsRequired := "Global Asset ID and AAS ID are required for discovery."
  const DiscoveryFailure := "Failed to link in Discovery: "

  // --------------------------------------------------------------- displayName

  /** A `{language, text}` entry of a multi-language property. */
  function Localized(language: string, text: string): Json {
    Obj([Member("language", Str(language)), Member("text", Str(text))])
  }

  /** The displayName put in place of an empty one: the idShort (empty for null) in
      English and in German. */
  function DefaultDisplayName(idShort: Option<string>): (r: Json)
    ensures r.Arr? && |r.items| == 2 && r.items[0].Obj? && r.items[1].Obj?
    ensures forall i :: 0 <= i < 2 ==> Find(r.items[i].members, "text") == Some(Str(idShort.GetOr("")))
    ensures Find(r.items[0].members, "language") == Some(Str("en"))
    ensures Find(r.items[1].members, "language") == Some(Str("de"))
  {
    var t := idShort.GetOr("");
    Arr([Localized("en", t), Localized("de", t)])
  }

  /** `shell.GetProperty("displayName")[0].GetProperty("text").GetString()`: throws
      unless displayName is a non-empty array whose first item has a string or null
      `text`. */
  function FirstDisplayText(shell: Json): (r: Result<Option<string>>)
    ensures r.Success? ==>
      && shell.Obj? && Find(shell.members, "displayName").Some?
      && Find(shell.members, "displayName").value.Arr?
      && |Find(shell.members, "displayName").value.items| > 0
  {
    var displayName :- GetProperty(shell, "displayName");
    var first :- At(displayName, 0);
    var text :- GetProperty(first, "text");
    GetString(text)
  }

  /** `shell.GetProperty("idShort").GetString()`: a missing idShort throws. */
  function IdShortOf(shell: Json): (r: Result<Option<string>>)
    ensures r.Success? ==> shell.Obj? && Find(shell.members, "idShort").Some?
    ensures r.Success? ==> StringMember(shell, "idShort") == r
  {
    var el :- GetProperty(shell, "idShort");
    GetString(el)
  }

  /** The shell as posted: when the first displayName text is null or empty, the shell
      with displayName replaced (in its place) by the default; otherwise the shell as
      it is. Reading displayName, its first text or idShort may throw. */
  function PrepareShell(shell: Json): (r: Result<Json>)
    ensures r.Success? <==> FirstDisplayText(shell).Success? && IdShortOf(shell).Success?
    ensures r.Success? && !IsNullOrEmpty(FirstDisplayText(shell).value) ==> r.value == shell
    ensures r.Success? && IsNullOrEmpty(FirstDisplayText(shell).value) ==>
      && r.value.Obj? && |r.value.members| == |shell.members|
      && Find(r.value.members, "displayName") == Some(DefaultDisplayName(IdShortOf(shell).value))
      && forall other :: other != "displayName" ==> Find(r.value.members, other) == Find(shell.members, other)
  {
    var text :- FirstDisplayText(shell);
    var idShort :- IdShortOf(shell);
    if IsNullOrEmpty(text) then Success(Obj(SetMember(shell.members, "displayName", DefaultDisplayName(idShort))))
    else Success(shell)
  }

  /** Setting a member to the value every member of that name already has changes
      nothing. */
  lemma SetMemberSame(ms: seq<Member>, name: string, value: Json)
    requires Find(ms, name).Some?
    requires forall i :: 0 <= i < |ms| && ms[i].name == name ==> ms[i].value == value
    ensures SetMember(ms, name, value) == ms
  {
    var r := SetMember(ms, name, value);
    assert forall i :: 0 <= i < |ms| ==> r[i] == ms[i];
  }

  /** Preparing a prepared shell changes nothing more: the default displayName's first
      text is the idShort, which either is non-empty or gives the same default again. */
  lemma PrepareShellIdempotent(shell: Json)
    requires PrepareShell(shell).Success?
    ensures PrepareShell(PrepareShell(shell).value) == PrepareShell(shell)
  {
    var r := PrepareShell(shell).value;
    if IsNullOrEmpty(FirstDisplayText(shell).value) {
      var d := DefaultDisplayName(IdShortOf(shell).value);
      assert Find(r.members, "idShort") == Find(shell.members, "idShort");
      assert IdShortOf(r) == IdShortOf(shell);
      assert d.items[0] == Localized("en", IdShortOf(shell).value.GetOr(""));
      assert FirstDisplayText(r) == Success(Some(IdShortOf(shell).value.GetOr("")));
      if IsNullOrEmpty(FirstDisplayText(r).value) {
        SetMemberSame(r.members, "displayName", d);
      }
    }
  }

  // -------------------------------------------------------------- registering

  /** The `register` pass: every shell is registered in turn, the first failure ending
      the action. */
  function RegisterEach(server: Server, sent: seq<Request>, shells: seq<Json>): (p: Phase<()>)
    ensures HaltsWithoutOk(p)
    decreases |shells|
  {
    if |shells| == 0 then Proceed((), sent)
    else
      match RegisterShell(server, sent, RegistryUrl, ExternalHost, shells[0])
      case Halt(o, s) => Halt(o, s)
      case Proceed(_, registered) => RegisterEach(server, registered, shells[1..])
  }

  /** A registered shell's descriptor points at the host a browser reaches. */
  lemma RegisteredHrefIsExternal(server: Server, sent: seq<Request>, shell: Json)
    requires RegisterShell(server, sent, RegistryUrl, ExternalHost, shell).Proceed?
    ensures var p := RegisterShell(server, sent, RegistryUrl, ExternalHost, shell);
      var e := p.sent[|sent|].body.entry;
      && Find(shell.members, "id") == Some(Str(e.id))
      && |e.endpoints| == 1
      && DecodedPath(ShellsPrefix(ExternalHost), e.endpoints[0].protocolInformation.href) == Some(e.id)
  {
    RegisteredEntryDescribesShell(server, sent, RegistryUrl, ExternalHost, shell);
  }

  // ---------------------------------------------------------------- discovery

  /** Linking one shell: its `assetInformation.globalAssetId` and `id` are read; when
      either is null or empty the action answers BadRequest; otherwise the single pair
      built from the globalAssetId is POSTed to the link endpoint of the encoded id.
      No try block: a failed send throws. */
  function LinkGlobalAssetId(server: Server, sent: seq<Request>, shell: Json): (p: Phase<()>)
    ensures HaltsWithoutOk(p)
    ensures p.sent == sent || (|p.sent| == |sent| + 1 && p.sent[..|sent|] == sent)
  {
    match NestedString(shell, "assetInformation", "globalAssetId")
    case Thrown => Halt(Thrown, sent)
    case Success(g) =>
      match StringMember(shell, "id")
      case Thrown => Halt(Thrown, sent)
      case Success(id) =>
        if IsNullOrEmpty(g) || IsNullOrEmpty(id) then Halt(Success(BadRequest(Text(DiscoveryIdsRequired))), sent)
        else
          var req := Request(POST, EncodedPath(DiscoveryLinkPrefix, id.value), AssetIds(Some(DiscoveryEntry(g.value))));
          var reply := server(sent, req);
          assert (sent + [req])[..|sent|] == sent;
          if !reply.Answered? then Halt(Thrown, sent + [req])
          else if !IsSuccessStatusCode(reply.status) then
            Halt(Success(Status(reply.status, Text(DiscoveryFailure + reply.content))), sent + [req])
          else Proceed((), sent + [req])
  }

  /** A shell whose globalAssetId or id is null or empty stops the action with
      BadRequest before its link is sent; for any other shell whose fields can be read,
      the one request sent carries exactly one pair {globalAssetId,
      "Asset_<globalAssetId>_Value"} and goes to the link endpoint that decodes back to
      the shell's id. */
  lemma LinkRequestNamesShell(server: Server, sent: seq<Request>, shell: Json)
    requires NestedString(shell, "assetInformation", "globalAssetId").Success?
    requires StringMember(shell, "id").Success?
    ensures var g := NestedString(shell, "assetInformation", "globalAssetId").value;
      var id := StringMember(shell, "id").value;
      var p := LinkGlobalAssetId(server, sent, shell);
      && (IsNullOrEmpty(g) || IsNullOrEmpty(id) <==> p == Halt(Success(BadRequest(Text(DiscoveryIdsRequired))), sent))
      && (!(IsNullOrEmpty(g) || IsNullOrEmpty(id)) ==>
            && |p.sent| == |sent| + 1
            && DecodedPath(DiscoveryLinkPrefix, p.sent[|sent|].url) == Some(id.value)
            && p.sent[|sent|].body.AssetIds? && p.sent[|sent|].body.ids.Some?
            && |p.sent[|sent|].body.ids.value| == 1
            && p.sent[|sent|].body.ids.value[0].name == g
            && AssetName(p.sent[|sent|].body.ids.value[0].value.value) == g
            && (p.Proceed? <==> Succeeded(server(sent, p.sent[|sent|]))))
  {
    var g := NestedString(shell, "assetInformation", "globalAssetId").value;
    var id := StringMember(shell, "id").value;
    if !(IsNullOrEmpty(g) || IsNullOrEmpty(id)) {
      EncodedPathRoundTrip(DiscoveryLinkPrefix, id.value);
    }
  }

  /** The `discover` pass over every shell, the first failure ending the action. */
  function LinkEach(server: Server, sent: seq<Request>, shells: seq<Json>): (p: Phase<()>)
    ensures HaltsWithoutOk(p)
    decreases |shells|
  {
    if |shells| == 0 then Proceed((), sent)
    else
      match LinkGlobalAssetId(server, sent, shells[0])
      case Halt(o, s) => Halt(o, s)
      case Proceed(_, linked) => LinkEach(server, linked, shells[1..])
  }

  /** `req` goes to the link endpoint of `shell`'s id, which can be read and is not null. */
  predicate LinksShell(req: Request, shell: Json) {
    && StringMember(shell, "id").Success? && StringMember(shell, "id").value.Some?
    && DecodedPath(DiscoveryLinkPrefix, req.url) == StringMember(shell, "id").value
  }

  /** A shell whose link goes through sends exactly that link, to the path of its id. */
  lemma LinkedShellNamesId(server: Server, sent: seq<Request>, shell: Json)
    requires LinkGlobalAssetId(server, sent, shell).Proceed?
    ensures var p := LinkGlobalAssetId(server, sent, shell);
      |p.sent| == |sent| + 1 && p.sent[..|sent|] == sent
    ensures LinksShell(LinkGlobalAssetId(server, sent, shell).sent[|sent|], shell)
  {
    LinkRequestNamesShell(server, sent, shell);
  }

  /** A discover pass that goes through has linked its first shell, then run on the rest. */
  lemma LinkEachUnfold(server: Server, sent: seq<Request>, shells: seq<Json>)
    requires |shells| > 0 && LinkEach(server, sent, shells).Proceed?
    ensures LinkGlobalAssetId(server, sent, shells[0]).Proceed?
    ensures LinkEach(server, sent, shells) ==
      LinkEach(server, LinkGlobalAssetId(server, sent, shells[0]).sent, shells[1..])
  {
  }

  /** A discover pass that goes through sends one link per shell, after what was sent
      before. */
  lemma {:induction false} LinkEachLength(server: Server, sent: seq<Request>, shells: seq<Json>)
    requires LinkEach(server, sent, shells).Proceed?
    ensures var p := LinkEach(server, sent, shells);
      |p.sent| == |sent| + |shells| && p.sent[..|sent|] == sent
    decreases |shells|
  {
    if |shells| > 0 {
      var first := LinkGlobalAssetId(server, sent, shells[0]);
      assert first.Proceed?;
      LinkedShellNamesId(server, sent, shells[0]);
      LinkEachLength(server, first.sent, shells[1..]);
      var p := LinkEach(server, first.sent, shells[1..]);
      assert p.sent[..|sent|] == p.sent[..|first.sent|][..|sent|];
    }
  }

  /** `links[k]` goes to the link endpoint of `shells[k]`'s id, for every k. */
  predicate LinksAll(links: seq<Request>, shells: seq<Json>) {
    |links| == |shells| && forall k :: 0 <= k < |links| ==> LinksShell(links[k], shells[k])
  }

  lemma LinksAllCons(link: Request, links: seq<Request>, shell: Json, shells: seq<Json>)
    requires LinksShell(link, shell) && LinksAll(links, shells)
    ensures LinksAll([link] + links, [shell] + shells)
  {
    forall k | 0 <= k < |links| + 1
      ensures LinksShell(([link] + links)[k], ([shell] + shells)[k])
    {
      if k > 0 {
        assert ([link] + links)[k] == links[k - 1] && ([shell] + shells)[k] == shells[k - 1];
      }
    }
  }

  /** What follows the first `n` elements of `all`, when `all` starts with `pre` of length
      `n + 1`, is `pre`'s last element and then the rest of `all`. */
  lemma SplitAfter<T>(all: seq<T>, pre: seq<T>, n: nat)
    requires |pre| == n + 1 && |pre| <= |all| && all[..|pre|] == pre
    ensures all[n..] == [pre[n]] + all[|pre|..]
  {
    assert all[n] == all[..|pre|][n];
  }

  /** The links of a discover pass that goes through follow the shells' order: the k-th
      request it sends goes to the link endpoint of the k-th shell's id. */
  lemma {:induction false} LinkEachOnePerShell(server: Server, sent: seq<Request>, shells: seq<Json>)
    requires LinkEach(server, sent, shells).Proceed?
    ensures |LinkEach(server, sent, shells).sent| >= |sent|
    ensures LinksAll(LinkEach(server, sent, shells).sent[|sent|..], shells)
    decreases |shells|
  {
    LinkEachLength(server, sent, shells);
    if |shells| > 0 {
      LinkEachUnfold(server, sent, shells);
      var first := LinkGlobalAssetId(server, sent, shells[0]);
      LinkedShellNamesId(server, sent, shells[0]);
      LinkEachOnePerShell(server, first.sent, shells[1..]);
      LinkEachLength(server, first.sent, shells[1..]);
      var all := LinkEach(server, sent, shells).sent;
      SplitAfter(all, first.sent, |sent|);
      LinksAllCons(first.sent[|sent|], all[|first.sent|..], shells[0], shells[1..]);
      assert [shells[0]] + shells[1..] == shells;
    }
  }

  // ------------------------------------------------------------- the action

  const LinkedJson := "JSON uploaded, registered and linked in Discovery."
  const RegisteredJson := "JSON uploaded and registered."
  const DiscoveredJson := "JSON uploaded and linked in Discovery."
  const UploadedJson := "JSON uploaded."

  /** How the two messages that claim a link end. */
  lemma LinkMessageEndings()
    ensures EndsWith(LinkedJson, "linked in Discovery.") && EndsWith(LinkedJson, "registered and linked in Discovery.")
    ensures EndsWith(DiscoveredJson, "linked in Discovery.") && !EndsWith(DiscoveredJson, "registered.")
      && !EndsWith(DiscoveredJson, "registered and linked in Discovery.")
  {
  }

  /** How the two messages without a link claim end. */
  lemma PlainMessageEndings()
    ensures !EndsWith(RegisteredJson, "linked in Discovery.") && EndsWith(RegisteredJson, "registered.")
    ensures !EndsWith(UploadedJson, "linked in Discovery.") && !EndsWith(UploadedJson, "registered.")
      && !EndsWith(UploadedJson, "registered and linked in Discovery.")
  {
  }

  /** The four success messages, one per combination of the flags: the message claims a
      discovery link exactly when `discover` is set, and registration exactly when
      `register` is. */
  function MessageTable(register: bool, discover: bool): (r: string)
    ensures EndsWith(r, "linked in Discovery.") <==> discover
    ensures EndsWith(r, "registered.") || EndsWith(r, "registered and linked in Discovery.") <==> register
  {
    LinkMessageEndings();
    PlainMessageEndings();
    if register && discover then LinkedJson
    else if register then RegisteredJson
    else if discover then DiscoveredJson
    else UploadedJson
  }

  /** The four messages are distinct, so the message tells both flags. */
  lemma MessageTableInjective(r1: bool, d1: bool, r2: bool, d2: bool)
    requires MessageTable(r1, d1) == MessageTable(r2, d2)
    ensures r1 == r2 && d1 == d2
  {
    assert |MessageTable(r1, d1)| == |MessageTable(r2, d2)|;
  }

  /** Everything before the final message: shells (prepared) and submodels are posted,
      then the register pass, then the discover pass. */
  function Steps(server: Server, parse: string -> Option<Json>, file: Option<string>,
                 register: bool, discover: bool): (p: Phase<()>)
    ensures HaltsWithoutOk(p)
  {
    match ReadUpload(file, parse)
    case Halt(o, s) => Halt(o, s)
    case Proceed(sections, _) =>
      match PostSections(server, sections, PrepareShell)
      case Halt(o, s) => Halt(o, s)
      case Proceed(shells, posted) =>
        match (if register then RegisterEach(server, posted, shells) else Proceed((), posted))
        case Halt(o, s) => Halt(o, s)
        case Proceed(_, registered) =>
          if discover then LinkEach(server, registered, shells) else Proceed((), registered)
  }

  /** ProcessJSONContent, after UploadJSON's file check. */
  function UploadJson(server: Server, parse: string -> Option<Json>, file: Option<string>,
                      register: bool, discover: bool): (r: Run<string>)
    ensures IsNullOrEmpty(file) ==> r == Run(Success(BadRequest(Text(FileRequired))), [])
    ensures r.outcome.Success? && r.outcome.value.Ok? ==>
      (EndsWith(r.outcome.value.value, "linked in Discovery.") <==> discover)
  {
    Finish(Steps(server, parse, file, register, discover), MessageTable(register, discover))
  }

  /** A missing or empty file, text that does not parse, or a root object missing a
      section answers BadRequest with nothing posted; a run that goes through answers
      the message of its two flags. */
  lemma UploadOutcomes(server: Server, parse: string -> Option<Json>, file: Option<string>,
                       register: bool, discover: bool)
    ensures var run := UploadJson(server, parse, file, register, discover);
      && (IsNullOrEmpty(file) ==> run == Run(Success(BadRequest(Text(FileRequired))), []))
      && (!IsNullOrEmpty(file) && parse(file.value).None? ==>
            run == Run(Success(BadRequest(WithException("Invalid JSON file: "))), []))
      && (!IsNullOrEmpty(file) && parse(file.value).Some? && parse(file.value).value.Obj?
          && !HasSections(parse(file.value).value) ==>
            run == Run(Success(BadRequest(Text(InvalidStructure))), []))
      && (run.outcome.Success? && run.outcome.value.Ok? <==> Steps(server, parse, file, register, discover).Proceed?)
      && (run.outcome.Success? && run.outcome.value.Ok? ==> run.outcome.value == Ok(MessageTable(register, discover)))
  {
  }

  /** Every shell posted is the prepared one: a run that gets past the sections has
      posted, for each shell in order, PrepareShell of it. */
  lemma PostedShellsArePrepared(server: Server, sections: Sections)
    requires PostSections(server, sections, PrepareShell).Proceed?
    ensures var p := PostSections(server, sections, PrepareShell);
      forall i :: 0 <= i < |sections.shells.items| ==>
        && PrepareShell(sections.shells.items[i]).Success?
        && i < |p.sent|
        && p.sent[i] == Request(POST, ShellsUrl, JsonText(PrepareShell(sections.shells.items[i]).value))
  {
    PostSectionsProceeds(server, sections, PrepareShell);
  }

  // ------------------------------------------------------------ log truncation

  const LogLimit := 500

  /** `"..."` as code units. */
  const Ellipsis: seq<CodeUnit> := [46, 46, 46]

  /** TruncateForLog: null or empty content is returned as it is, content within the
      limit unchanged, longer content cut to its first `maxLength` code units followed
      by "...". `Length` and `Substring` count UTF-16 code units, so the content is a
      code-unit sequence here, and the cut may split a surrogate pair. `Substring` with
      a negative length throws. */
  function TruncateForLog(content: Option<seq<CodeUnit>>, maxLength: int): (r: Result<Option<seq<CodeUnit>>>)
    ensures IsNullOrEmpty(content) ==> r == Success(content)
    ensures content.Some? && |content.value| <= maxLength ==> r == Success(content)
    ensures r.Thrown? <==> !IsNullOrEmpty(content) && maxLength < 0
    ensures content.Some? && 0 <= maxLength < |content.value| ==>
      && r.Success? && r.value.Some?
      && |r.value.value| == maxLength + 3
      && r.value.value[..maxLength] == content.value[..maxLength]
      && r.value.value[maxLength..] == Ellipsis
  {
    if IsNullOrEmpty(content) then Success(content)
    else if |content.value| <= maxLength then Success(content)
    else if maxLength < 0 then Thrown
    else Success(Some(content.value[..maxLength] + Ellipsis))
  }

  /** Truncating what was already truncated changes nothing. */
  lemma TruncateIdempotent(content: Option<seq<CodeUnit>>, maxLength: int)
    requires TruncateForLog(content, maxLength).Success?
    ensures TruncateForLog(TruncateForLog(content, maxLength).value, maxLength) == TruncateForLog(content, maxLength)
  {
    var r := TruncateForLog(content, maxLength).value;
    if content.Some? && 0 <= maxLength < |content.value| {
      assert r.value[..maxLength] + Ellipsis == r.value;
    }
  }

  /** For text inside the basic multilingual plane, the limit counts characters: longer
      text keeps its first `maxLength` characters followed by "...". */
  lemma TruncateBmpText(s: string, maxLength: int)
    requires forall i :: 0 <= i < |s| ==> IsBmp(s[i])
    requires 0 <= maxLength < |s|
    ensures TruncateForLog(Some(Utf16(s)), maxLength) == Success(Some(Utf16(s[..maxLength] + "...")))
  {
    var u := Utf16(s);
    assert u[..maxLength] == Utf16(s[..maxLength]) by {
      Utf16BmpPrefix(s, maxLength);
    }
    assert u[..maxLength] + Ellipsis == Utf16(s[..maxLength] + "...") by {
      Utf16Append(s[..maxLength], "...");
      EllipsisUnits();
    }
  }

  /** The first `n` code units of text inside the basic multilingual plane are the
      code units of its first `n` characters. */
  lemma {:induction false} Utf16BmpPrefix(s: string, n: nat)
    requires forall i :: 0 <= i < |s| ==> IsBmp(s[i])
    requires n <= |s|
    ensures Utf16(s)[..n] == Utf16(s[..n])
  {
    if n > 0 {
      assert IsBmp(s[0]);
      Utf16BmpPrefix(s[1..], n - 1);
      assert s[..n][1..] == s[1..][..n - 1];
      assert s[..n][0] == s[0];
    }
  }

  lemma EllipsisUnits()
    ensures Utf16("...") == Ellipsis
  {
    assert Utf16("...") == ScalarUnits('.') + Utf16("..");
    assert Utf16("..") == ScalarUnits('.') + Utf16(".");
    assert Utf16(".") == ScalarUnits('.') + Utf16("");
  }

  /** Outside that plane each character takes two code units: 300 copies of U+1F600 are
      600 units, over the log limit, and keep only 250 of them. */
  lemma TruncateCountsCodeUnits()
    ensures TruncateForLog(Some(Utf16(Repeat('\U{1F600}', 300))), LogLimit)
      == Success(Some(Utf16(Repeat('\U{1F600}', 250)) + Ellipsis))
  {
    Utf16OfRepeat('\U{1F600}', 300, 250);
  }

  /** An odd limit can cut between the two halves of a pair, leaving a lone high
      surrogate before the "...". */
  lemma TruncateSplitsSurrogatePair(c: char)
    requires !IsBmp(c)
    ensures var r := TruncateForLog(Some(Utf16([c])), 1);
      r.Success? && r.value.Some? && IsHighSurrogate(r.value.value[0]) && r.value.value[1..] == Ellipsis
  {
    assert Utf16([c]) == ScalarUnits(c) + Utf16([]);
  }

  // ------------------------------------------------------------- semanticId

  /** A key the extraction stops at: an object whose `type` is the string "Submodel"
      and which has a `value`. */
  predicate IsSubmodelKey(key: Json) {
    key.Obj? && Find(key.members, "type") == Some(Str("Submodel")) && Find(key.members, "value").Some?
  }

  /** Testing this key throws: it is not an object, its `type` is neither a string nor
      null, or it is the key stopped at and its `value` is neither a string nor null. */
  predicate KeyThrows(key: Json) {
    || !key.Obj?
    || (Find(key.members, "type").Some? && !(Find(key.members, "type").value.Str? || Find(key.members, "type").value.Null?))
    || (IsSubmodelKey(key) && !(Find(key.members, "value").value.Str? || Find(key.members, "value").value.Null?))
  }

  /** No key before index `i` is a Submodel key. */
  predicate NoSubmodelKeyBefore(keys: seq<Json>, i: int)
    requires 0 <= i <= |keys|
  {
    forall k :: 0 <= k < i ==> !IsSubmodelKey(keys[k])
  }

  /** The loop over `semanticId.keys`: the `value` of the first key whose `type` is
      "Submodel" and that has a `value` (a null value gives null), "" when there is
      none. */
  function SubmodelKeyValue(keys: seq<Json>): (r: Result<Option<string>>)
    ensures r.Success? && NoSubmodelKeyBefore(keys, |keys|) ==> r == Success(Some(""))
    ensures forall i :: 0 <= i < |keys| && IsSubmodelKey(keys[i]) && NoSubmodelKeyBefore(keys, i) && r.Success? ==>
      r == GetString(Find(keys[i].members, "value").value)
    ensures r.Thrown? <==> exists i :: 0 <= i < |keys| && KeyThrows(keys[i]) && NoSubmodelKeyBefore(keys, i)
    decreases |keys|
  {
    if |keys| == 0 then Success(Some(""))
    else
      var typed :- TypeIsSubmodel(keys[0]);
      if typed && MemberOf(keys[0], "value").Some? then GetString(MemberOf(keys[0], "value").value)
      else
        var r := SubmodelKeyValue(keys[1..]);
        assert forall i :: 1 <= i < |keys| ==> keys[i] == keys[1..][i - 1];
        assert forall i :: 1 <= i <= |keys| ==> (NoSubmodelKeyBefore(keys, i) <==> NoSubmodelKeyBefore(keys[1..], i - 1));
        r
  }

  /** `key.TryGetProperty("type", out t) && t.GetString() == "Submodel"`. */
  function TypeIsSubmodel(key: Json): (r: Result<bool>)
    ensures r.Thrown? <==> !key.Obj? || (Find(key.members, "type").Some? && GetString(Find(key.members, "type").value).Thrown?)
    ensures r.Success? ==> (r.value <==> Find(key.members, "type") == Some(Str("Submodel")))
  {
    var t :- Get(key, "type");
    if t.None? then Success(false)
    else
      var s :- GetString(t.value);
      Success(s == Some("Submodel"))
  }

  /** The semanticId a submodel descriptor would carry: "" when the submodel has no
      `semanticId` or it has no `keys`, else what the loop over the keys finds;
      `EnumerateArray` on keys that are not an array throws. */
  function SemanticId(submodel: Json): (r: Result<Option<string>>)
    ensures r.Success? ==> submodel.Obj?
    ensures submodel.Obj? && Find(submodel.members, "semanticId").None? ==> r == Success(Some(""))
    ensures r.Success? && Find(submodel.members, "semanticId").Some? ==>
      var semantic := Find(submodel.members, "semanticId").value;
      && semantic.Obj?
      && (Find(semantic.members, "keys").None? ==> r == Success(Some("")))
      && (Find(semantic.members, "keys").Some? ==>
            Find(semantic.members, "keys").value.Arr?
            && r == SubmodelKeyValue(Find(semantic.members, "keys").value.items))
  {
    var semantic :- Get(submodel, "semanticId");
    if semantic.None? then Success(Some(""))
    else
      var keys :- Get(semantic.value, "keys");
      if keys.None? then Success(Some(""))
      else
        var items :- EnumerateArray(keys.value);
        SubmodelKeyValue(items)
  }
}
