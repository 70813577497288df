/** How the match controller reads a shell document returned by the lookup service
    (a JObject with `assetAdministrationShells` and `submodels`): the few leaf values
    it harvests into dictionaries, and the id of the shell it reports. */
module Harvest {
  import opened Wrappers
  import opened Json
  import opened Dict

  const HousingNumber := "HousingNumber"
  const SupportedProtocol := "SupportedProtocol"
  const ElectricalConnectors := "ElectricalConnectors"
  const HardwareVersion := "HardwareVersion"

  /** The only keys GetTechnicalProperties ever stores. */
  predicate IsTechnicalKey(k: string) {
    k == HousingNumber || k == SupportedProtocol
  }

  /** The only keys GetDeviceCompatibilityProperties ever stores. */
  predicate IsDeviceKey(k: string) {
    k == ElectricalConnectors || k == HardwareVersion
  }

  /** `aas[name] as JArray`, enumerated: the items of the member when it is an array. */
  function ArrayMember(aas: Json, name: string): Result<seq<Json>> {
    var m :- Get(aas, name);
    Success(ItemsOf(m))
  }

  // ------------------------------------------------------------ technical data

  /** GetTechnicalProperties: the technical keys among the properties of the block that
      TechnicalBlock finds; no block gives an empty dictionary. */
  function TechnicalProperties(aas: Json): (r: Result<Dict>)
    ensures r.Success? ==> DistinctKeys(r.value)
    ensures r.Success? ==> forall k :: k in Keys(r.value) ==> IsTechnicalKey(k)
  {
    var block :- TechnicalBlock(aas);
    if block.None? then Success([]) else CollectTechnical(block.value, [])
  }

  /** The loop over the properties: each one's `idShort` and `value` are read (a token
      that is not an object throws), and a technical key is written with its value. */
  function CollectTechnical(props: seq<Json>, acc: Dict): (r: Result<Dict>)
    requires DistinctKeys(acc)
    requires forall k :: k in Keys(acc) ==> IsTechnicalKey(k)
    ensures r.Success? ==> DistinctKeys(r.value)
    ensures r.Success? ==> forall k :: k in Keys(r.value) ==> IsTechnicalKey(k)
    ensures r.Thrown? <==> exists i :: 0 <= i < |props| && !props[i].Obj?
    decreases |props|
  {
    if |props| == 0 then Success(acc)
    else
      var id :- Get(props[0], "idShort");
      var value := MemberOf(props[0], "value");
      var name := TextOf(id);
      var next := if name.Some? && IsTechnicalKey(name.value) then Set(acc, name.value, TextOf(value)) else acc;
      SetKeys(acc, if name.Some? then name.value else "", TextOf(value));
      assert forall i :: 1 <= i < |props| ==> props[i] == props[1..][i - 1];
      CollectTechnical(props[1..], next)
  }

  /** The text of a property's member, for a property that is an object. */
  function PropertyText(p: Json, name: string): Option<string> {
    if p.Obj? then TextOf(Find(p.members, name)) else None
  }

  /** The reference meaning of last-write-wins: the value of the LAST property whose
      idShort is `key`, or None when no property carries that idShort. */
  function LastValue(props: seq<Json>, key: string): Option<Option<string>>
    decreases |props|
  {
    if |props| == 0 then None
    else if PropertyText(props[|props| - 1], "idShort") == Some(key) then
      Some(PropertyText(props[|props| - 1], "value"))
    else LastValue(props[..|props| - 1], key)
  }

  /** A repeated technical idShort is last-write-wins: after the loop, each technical key
      holds the value of the last property with that idShort, or keeps what it had. */
  lemma {:induction false} CollectIsLastWriteWins(props: seq<Json>, acc: Dict, key: string)
    requires DistinctKeys(acc)
    requires forall k :: k in Keys(acc) ==> IsTechnicalKey(k)
    requires IsTechnicalKey(key)
    requires CollectTechnical(props, acc).Success?
    ensures TryGetValue(CollectTechnical(props, acc).value, key)
         == (if LastValue(props, key).Some? then LastValue(props, key) else TryGetValue(acc, key))
    decreases |props|
  {
    if |props| > 0 {
      var p := props[0];
      var name := TextOf(Find(p.members, "idShort"));
      var value := TextOf(Find(p.members, "value"));
      var next := if name.Some? && IsTechnicalKey(name.value) then Set(acc, name.value, value) else acc;
      SetKeys(acc, if name.Some? then name.value else "", value);
      CollectIsLastWriteWins(props[1..], next, key);
      LastValueCons(props, key);
    }
  }

  /** LastValue read from the front: the tail's last value wins, else the head's. */
  lemma {:induction false} LastValueCons(props: seq<Json>, key: string)
    requires |props| > 0
    ensures LastValue(props, key)
         == (if LastValue(props[1..], key).Some? then LastValue(props[1..], key)
             else if PropertyText(props[0], "idShort") == Some(key) then Some(PropertyText(props[0], "value"))
             else None)
    decreases |props|
  {
    if |props| > 1 {
      var init := props[..|props| - 1];
      assert init[1..] == props[1..][..|props[1..]| - 1];
      assert props[1..][|props[1..]| - 1] == props[|props| - 1];
      assert init[0] == props[0];
      LastValueCons(init, key);
    } else {
      assert props[..0] == [];
    }
  }

  /** The harvested technical value of a key is the value of the last property with that
      idShort inside the first TechnicalProperties block of the first TechnicalData
      submodel; a key no property names is absent. */
  lemma TechnicalIsLastWriteWins(aas: Json, props: seq<Json>, key: string)
    requires IsTechnicalKey(key)
    requires TechnicalBlock(aas) == Success(Some(props))
    requires TechnicalProperties(aas).Success?
    ensures TryGetValue(TechnicalProperties(aas).value, key) == LastValue(props, key)
  {
    CollectIsLastWriteWins(props, [], key);
  }

  /** The property list GetTechnicalProperties walks: the `value` array of the first
      `TechnicalProperties` element of the first `TechnicalData` submodel (a `value` that
      is not an array counts as no properties), or None when a step of the path is
      missing. */
  function TechnicalBlock(aas: Json): Result<Option<seq<Json>>> {
    var submodels :- ArrayMember(aas, "submodels");
    var data :- FirstWith(submodels, "idShort", "TechnicalData");
    if data.None? then Success(None)
    else
      var elements := ItemsOf(MemberOf(data.value, "submodelElements"));
      var block :- FirstWith(elements, "idShort", "TechnicalProperties");
      if block.None? then Success(None)
      else Success(Some(ItemsOf(MemberOf(block.value, "value"))))
  }

  /** A document whose `submodels` member is missing or not an array, or whose submodels
      all have an idShort other than TechnicalData, gives an empty dictionary rather than
      an exception. */
  lemma TechnicalPathMissing(aas: Json)
    requires aas.Obj?
    ensures ItemsOf(MemberOf(aas, "submodels")) == [] ==> TechnicalProperties(aas) == Success([])
    ensures (forall i :: 0 <= i < |ItemsOf(MemberOf(aas, "submodels"))| ==>
               HasText(ItemsOf(MemberOf(aas, "submodels"))[i], "idShort", "TechnicalData") == Success(false))
            ==> TechnicalProperties(aas) == Success([])
  {
  }

  /** The first TechnicalData submodel having no element with idShort TechnicalProperties
      (or no `submodelElements` array at all) gives an empty dictionary. */
  lemma NoTechnicalPropertiesElement(aas: Json, data: Json)
    requires aas.Obj?
    requires FirstWith(ItemsOf(MemberOf(aas, "submodels")), "idShort", "TechnicalData") == Success(Some(data))
    requires forall j :: 0 <= j < |ItemsOf(MemberOf(data, "submodelElements"))| ==>
      HasText(ItemsOf(MemberOf(data, "submodelElements"))[j], "idShort", "TechnicalProperties") == Success(false)
    ensures TechnicalProperties(aas) == Success([])
  {
  }

  /** A TechnicalProperties element whose `value` is missing or not an array has no
      properties, so the dictionary is empty. */
  lemma TechnicalValueNotArray(aas: Json, data: Json, block: Json)
    requires aas.Obj?
    requires FirstWith(ItemsOf(MemberOf(aas, "submodels")), "idShort", "TechnicalData") == Success(Some(data))
    requires FirstWith(ItemsOf(MemberOf(data, "submodelElements")), "idShort", "TechnicalProperties") == Success(Some(block))
    requires !(MemberOf(block, "value").Some? && MemberOf(block, "value").value.Arr?)
    ensures TechnicalProperties(aas) == Success([])
  {
  }

  // ------------------------------------------------------ device compatibility

  /** GetDeviceCompatibilityProperties: the value of the first ElectricalInterfaceVersion
      child of the first ElectricalConnectors element of the first InterfaceConnectors
      submodel, and the English text of the first HardwareVersion element of the first
      Nameplate submodel. */
  function DeviceProperties(aas: Json): (r: Result<Dict>)
    ensures r.Success? ==> DistinctKeys(r.value) && |r.value| <= 2
    ensures r.Success? ==> forall k :: k in Keys(r.value) ==> IsDeviceKey(k)
  {
    var submodels :- ArrayMember(aas, "submodels");
    var connectors :- ConnectorVersion(submodels);
    var hardware :- EnglishHardwareVersion(submodels);
    Success(DeviceDict(connectors, hardware))
  }

  /** The device dictionary built from its two halves: ElectricalConnectors set when the
      connector half was found, then HardwareVersion when the hardware half was. */
  function DeviceDict(connectors: Option<Option<string>>, hardware: Option<Option<string>>): (r: Dict)
    ensures DistinctKeys(r) && |r| <= 2
    ensures forall k :: k in Keys(r) ==> IsDeviceKey(k)
    ensures TryGetValue(r, ElectricalConnectors) == connectors
    ensures TryGetValue(r, HardwareVersion) == hardware
  {
    var afterConnectors := if connectors.Some? then Set([], ElectricalConnectors, connectors.value) else [];
    var r := if hardware.Some? then Set(afterConnectors, HardwareVersion, hardware.value) else afterConnectors;
    SetKeys([], ElectricalConnectors, connectors.GetOr(None));
    SetKeys(afterConnectors, HardwareVersion, hardware.GetOr(None));
    assert Keys(r) <= {ElectricalConnectors, HardwareVersion};
    KeysCount(r);
    assert |r| <= 2 by {
      SubsetCard(Keys(r), {ElectricalConnectors, HardwareVersion});
    }
    r
  }

  lemma SubsetCard(a: set<string>, b: set<string>)
    requires a <= b
    ensures |a| <= |b|
  {
    assert b == a + (b - a);
  }

  /** The ElectricalConnectors half: None when a step of the path is missing, else the
      (possibly null) text of the `value` of the ElectricalInterfaceVersion child. Its
      parent's `value` is enumerated as a JToken: an array gives its items, an object its
      properties (which throw when indexed), a scalar nothing. */
  function ConnectorVersion(submodels: seq<Json>): Result<Option<Option<string>>> {
    var connectors :- FirstWith(submodels, "idShort", "InterfaceConnectors");
    if connectors.None? then Success(None)
    else
      var elements := ItemsOf(MemberOf(connectors.value, "submodelElements"));
      var electrical :- FirstWith(elements, "idShort", "ElectricalConnectors");
      if electrical.None? then Success(None)
      else
        var children := MemberOf(electrical.value, "value");
        var version :- FirstChildWith(children, "idShort", "ElectricalInterfaceVersion");
        if version.None? then Success(None)
        else Success(Some(TextOf(MemberOf(version.value, "value"))))
  }

  /** The HardwareVersion half: None when a step of the path is missing, else the
      (possibly null) text of the first entry whose language is "en". */
  function EnglishHardwareVersion(submodels: seq<Json>): Result<Option<Option<string>>> {
    var nameplate :- FirstWith(submodels, "idShort", "Nameplate");
    if nameplate.None? then Success(None)
    else
      var elements := ItemsOf(MemberOf(nameplate.value, "submodelElements"));
      var version :- FirstWith(elements, "idShort", "HardwareVersion");
      if version.None? then Success(None)
      else
        var texts := ItemsOf(MemberOf(version.value, "value"));
        var english :- FirstWith(texts, "language", "en");
        if english.None? then Success(None)
        else Success(Some(TextOf(MemberOf(english.value, "text"))))
  }

  /** Each device key is present exactly when its half of the path is complete, and then
      holds what that half found. */
  lemma DevicePropertiesFromHalves(aas: Json)
    requires DeviceProperties(aas).Success?
    ensures var submodels := ArrayMember(aas, "submodels").value;
      && TryGetValue(DeviceProperties(aas).value, ElectricalConnectors) == ConnectorVersion(submodels).value
      && TryGetValue(DeviceProperties(aas).value, HardwareVersion) == EnglishHardwareVersion(submodels).value
  {
  }

  // ------------------------------------------------------------------- shell id

  /** `aas["assetAdministrationShells"][0]["id"].ToString()`: throws unless the member is
      a non-empty array whose first item is an object with an `id`. */
  function ShellId(aas: Json): (r: Result<string>)
    ensures r.Success? <==>
      && aas.Obj?
      && Find(aas.members, "assetAdministrationShells").Some?
      && Find(aas.members, "assetAdministrationShells").value.Arr?
      && |Find(aas.members, "assetAdministrationShells").value.items| > 0
      && Find(aas.members, "assetAdministrationShells").value.items[0].Obj?
      && Find(Find(aas.members, "assetAdministrationShells").value.items[0].members, "id").Some?
  {
    var shells :- Get(aas, "assetAdministrationShells");
    if shells.None? || !shells.value.Arr? || |shells.value.items| == 0 then Thrown
    else
      var id :- Get(shells.value.items[0], "id");
      if id.None? then Thrown else Success(Text(id.value))
  }
}
