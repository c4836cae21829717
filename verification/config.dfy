/**
 * The configuration document both module roles save and load: the JSON
 * object built by get_config_json_doc and read back by load_setting. The
 * JSON text is not modelled; the document is a record whose optional
 * members are None when absent (JSON null).
 */
module Config {
  import opened Wrappers
  import opened Wire
  import R = RelayResponder
  import S = SwitchInitiator

  /** One element of the "relays" array: "name", "descr", and "last" or "addr". */
  datatype Entry = Entry(name: Option<string>, descr: Option<string>, last: Option<bool>, addr: Option<Address>)

  /**
   * The whole document: "module", "relays", "for", "save_state",
   * "wificonf" and "relconf".
   */
  datatype ConfigDoc = ConfigDoc(
    moduleDescr: Option<string>,
    relays: seq<Entry>,
    forKind: Option<string>,
    saveState: Option<bool>,
    wifiConf: Option<string>,
    relayConf: Option<string>)

  /** `as<String>()` of an optional member: "null" when it is absent. */
  function Text(v: Option<string>): (t: string)
    ensures v.Some? ==> t == v.value
    ensures v.None? ==> t == NullText
  {
    v.GetOr(NullText)
  }

  /** `as<bool>()` of an optional member: false when it is absent. */
  function Flag(v: Option<bool>): (b: bool)
    ensures b <==> v == Some(true)
  {
    v.GetOr(false)
  }

  /** The "for" member names the role: "relay" or "switch". */
  const RelayKind := "relay"

  /** get_config_json_doc for the relay module. */
  function RelayConfigDoc(dev: R.RelayDevice, wifiPage: string, relayPage: string): (doc: ConfigDoc)
    ensures |doc.relays| == |dev.relays|
    ensures doc.moduleDescr == Some(dev.moduleDescription) && doc.saveState == Some(dev.saveState)
    ensures doc.forKind == Some(RelayKind)
    ensures doc.wifiConf == Some(wifiPage) && doc.relayConf == Some(relayPage)
    ensures forall i :: 0 <= i < |dev.relays| ==>
      doc.relays[i] == Entry(Some(dev.relays[i].data.name), Some(dev.relays[i].data.description),
                             Some(dev.relays[i].data.lastState), None)
  {
    var entries := seq(|dev.relays|, i requires 0 <= i < |dev.relays| =>
      Entry(Some(dev.relays[i].data.name), Some(dev.relays[i].data.description),
            Some(dev.relays[i].data.lastState), None));
    ConfigDoc(Some(dev.moduleDescription), entries, Some(RelayKind), Some(dev.saveState),
              Some(wifiPage), Some(relayPage))
  }

  /**
   * get_config_json_doc for the switch module. The module description is
   * the variable both roles share, so it is passed in.
   */
  function SwitchConfigDoc(dev: S.SwitchDevice, moduleDescription: string, wifiPage: string, relayPage: string): (doc: ConfigDoc)
    ensures |doc.relays| == |dev.bindings|
    ensures doc.moduleDescr == Some(moduleDescription) && doc.saveState == None
    ensures doc.forKind == Some(SwitchCmd)
    ensures doc.wifiConf == Some(wifiPage) && doc.relayConf == Some(relayPage)
    ensures forall i :: 0 <= i < |dev.bindings| ==>
      doc.relays[i] == Entry(Some(dev.bindings[i].name), Some(dev.bindings[i].description),
                             None, Some(dev.bindings[i].address))
  {
    var entries := seq(|dev.bindings|, i requires 0 <= i < |dev.bindings| =>
      Entry(Some(dev.bindings[i].name), Some(dev.bindings[i].description),
            None, Some(dev.bindings[i].address)));
    ConfigDoc(Some(moduleDescription), entries, Some(SwitchCmd), None, Some(wifiPage), Some(relayPage))
  }

  /** The relay slot after loading its array element. */
  function LoadSlot(r: R.Relay, e: Entry): (l: R.Relay)
    ensures l.pinLevel == r.pinLevel
    ensures l.data == r.data.(name := StringValue(Text(e.name)),
                              description := StringValue(Text(e.descr)),
                              lastState := Flag(e.last))
  {
    r.(data := r.data.(name := StringValue(Text(e.name)),
                       description := StringValue(Text(e.descr)),
                       lastState := Flag(e.last)))
  }

  /**
   * load_setting for the relay module: the module description and the
   * save flag, then name, description and last state of the first slots,
   * as many as both the array and the module have. Pins are not touched.
   */
  function LoadRelaySetting(dev: R.RelayDevice, doc: ConfigDoc): (d: R.RelayDevice)
    ensures |d.relays| == |dev.relays|
    ensures d.moduleDescription == StringValue(Text(doc.moduleDescr))
    ensures d.saveState == Flag(doc.saveState)
    ensures forall i :: 0 <= i < |dev.relays| && i < |doc.relays| ==> d.relays[i] == LoadSlot(dev.relays[i], doc.relays[i])
    ensures forall i :: |doc.relays| <= i < |dev.relays| ==> d.relays[i] == dev.relays[i]
  {
    var rs := seq(|dev.relays|, i requires 0 <= i < |dev.relays| =>
      if i < |doc.relays| then LoadSlot(dev.relays[i], doc.relays[i]) else dev.relays[i]);
    R.RelayDevice(rs, StringValue(Text(doc.moduleDescr)), Flag(doc.saveState))
  }

  /** The switch binding after loading its array element. */
  function LoadBinding(b: S.Binding, e: Entry): (l: S.Binding)
    ensures l == b.(name := StringValue(Text(e.name)),
                    description := if Text(e.name) == "" then "" else StringValue(Text(e.descr)))
  {
    var descr := if Text(e.name) == "" then Some("") else e.descr;
    b.(name := StringValue(Text(e.name)), description := StringValue(Text(descr)))
  }

  /**
   * load_setting for the switch module: name and description of the first
   * bindings. An element with an empty name gets an empty description; the
   * stored address is not read back.
   */
  function LoadSwitchSetting(dev: S.SwitchDevice, doc: ConfigDoc): (d: S.SwitchDevice)
    ensures |d.bindings| == |dev.bindings|
    ensures d.relayCount == dev.relayCount && d.checkTimer == dev.checkTimer && d.checkInterval == dev.checkInterval
    ensures forall i :: 0 <= i < |dev.bindings| && i < |doc.relays| ==> d.bindings[i] == LoadBinding(dev.bindings[i], doc.relays[i])
    ensures forall i :: |doc.relays| <= i < |dev.bindings| ==> d.bindings[i] == dev.bindings[i]
  {
    var bs := seq(|dev.bindings|, i requires 0 <= i < |dev.bindings| =>
      if i < |doc.relays| then LoadBinding(dev.bindings[i], doc.relays[i]) else dev.bindings[i]);
    dev.(bindings := bs)
  }

  /** The module description load_setting reads in either role. */
  function LoadModuleDescription(doc: ConfigDoc): (s: string)
    ensures s != NullText
    ensures doc.moduleDescr.Some? && doc.moduleDescr.value != NullText ==> s == doc.moduleDescr.value
    ensures doc.moduleDescr.None? ==> s == ""
  {
    StringValue(Text(doc.moduleDescr))
  }

  /** No text the relay module saves is the literal "null". */
  predicate RelayTextsNotNull(dev: R.RelayDevice)
  {
    && dev.moduleDescription != NullText
    && forall i :: 0 <= i < |dev.relays| ==>
         dev.relays[i].data.name != NullText && dev.relays[i].data.description != NullText
  }

  /**
   * The relay configuration survives a save and a load: description, save
   * flag and every slot come back as they were, unless some text was the
   * literal "null".
   */
  lemma RelayConfigRoundTrip(dev: R.RelayDevice, wifiPage: string, relayPage: string)
    requires RelayTextsNotNull(dev)
    ensures LoadRelaySetting(dev, RelayConfigDoc(dev, wifiPage, relayPage)) == dev
  {
    var doc := RelayConfigDoc(dev, wifiPage, relayPage);
    var d := LoadRelaySetting(dev, doc);
    forall i | 0 <= i < |dev.relays|
      ensures d.relays[i] == dev.relays[i]
    {
      assert doc.relays[i].name == Some(dev.relays[i].data.name);
    }
    assert d.relays == dev.relays;
  }

  /**
   * The converse: when some saved text is the literal "null", the load does
   * not give the module back; that text comes back empty.
   */
  lemma RelayConfigRoundTripNeedsNoNull(dev: R.RelayDevice, wifiPage: string, relayPage: string)
    requires !RelayTextsNotNull(dev)
    ensures LoadRelaySetting(dev, RelayConfigDoc(dev, wifiPage, relayPage)) != dev
  {
    var doc := RelayConfigDoc(dev, wifiPage, relayPage);
    var d := LoadRelaySetting(dev, doc);
    if dev.moduleDescription == NullText {
      assert d.moduleDescription == "";
    } else {
      var i :| 0 <= i < |dev.relays| &&
        (dev.relays[i].data.name == NullText || dev.relays[i].data.description == NullText);
      assert doc.relays[i].name == Some(dev.relays[i].data.name);
      assert doc.relays[i].descr == Some(dev.relays[i].data.description);
      assert d.relays[i] != dev.relays[i];
    }
  }

  /** A relay saved under the name "null" comes back as a free slot. */
  lemma NullNameLoadsAsFreeSlot(dev: R.RelayDevice, wifiPage: string, relayPage: string, i: int)
    requires 0 <= i < |dev.relays| && dev.relays[i].data.name == NullText
    ensures LoadRelaySetting(dev, RelayConfigDoc(dev, wifiPage, relayPage)).relays[i].data.name == ""
  {
  }

  /**
   * The bindings the switch module can save and load back: no text is
   * "null", and a free binding carries no description.
   */
  predicate SwitchTextsLoadable(dev: S.SwitchDevice, moduleDescription: string)
  {
    && moduleDescription != NullText
    && forall i :: 0 <= i < |dev.bindings| ==>
         && dev.bindings[i].name != NullText && dev.bindings[i].description != NullText
         && (dev.bindings[i].name == "" ==> dev.bindings[i].description == "")
  }

  /** The switch configuration survives a save and a load. */
  lemma SwitchConfigRoundTrip(dev: S.SwitchDevice, moduleDescription: string, wifiPage: string, relayPage: string)
    requires SwitchTextsLoadable(dev, moduleDescription)
    ensures var doc := SwitchConfigDoc(dev, moduleDescription, wifiPage, relayPage);
      LoadSwitchSetting(dev, doc) == dev && LoadModuleDescription(doc) == moduleDescription
  {
    var doc := SwitchConfigDoc(dev, moduleDescription, wifiPage, relayPage);
    var d := LoadSwitchSetting(dev, doc);
    forall i | 0 <= i < |dev.bindings|
      ensures d.bindings[i] == dev.bindings[i]
    {
      assert doc.relays[i].name == Some(dev.bindings[i].name);
    }
    assert d.bindings == dev.bindings;
  }

  /** A free binding that had a description loses it on the way back. */
  lemma FreeBindingLosesDescription(dev: S.SwitchDevice, moduleDescription: string, wifiPage: string, relayPage: string, i: int)
    requires 0 <= i < |dev.bindings| && dev.bindings[i].name == ""
    ensures var doc := SwitchConfigDoc(dev, moduleDescription, wifiPage, relayPage);
      LoadSwitchSetting(dev, doc).bindings[i].description == ""
  {
  }

  /**
   * The pins attachWebInterface restores from the loaded configuration.
   * Only when relay states persist (the loaded save flag is set) is every
   * relay whose last state is on switched on; the others keep the level
   * addRelay gave them. Without the save flag nothing is switched.
   */
  function RestoreStates(dev: R.RelayDevice): (d: R.RelayDevice)
    ensures !dev.saveState ==> d == dev
    ensures |d.relays| == |dev.relays|
    ensures d.moduleDescription == dev.moduleDescription && d.saveState == dev.saveState
    ensures forall i :: 0 <= i < |dev.relays| ==> d.relays[i].data == dev.relays[i].data
    ensures dev.saveState ==> forall i :: 0 <= i < |dev.relays| && dev.relays[i].data.lastState ==> R.IsOn(d.relays[i])
    ensures forall i :: 0 <= i < |dev.relays| && !dev.relays[i].data.lastState ==> d.relays[i] == dev.relays[i]
  {
    if !dev.saveState then dev
    else
      var rs := seq(|dev.relays|, i requires 0 <= i < |dev.relays| =>
        if dev.relays[i].data.lastState then dev.relays[i].(pinLevel := dev.relays[i].data.controlHigh)
        else dev.relays[i]);
      dev.(relays := rs)
  }

  /**
   * When relay states persist, after a restore every relay whose last
   * state was saved reports it:
   * "on" for a saved on, and "off" for a saved off when the relay was
   * added (and so left off).
   */
  lemma RestoredRelaysReportSavedState(dev: R.RelayDevice, i: int)
    requires 0 <= i < |dev.relays| && dev.saveState
    requires !dev.relays[i].data.lastState ==> !R.IsOn(dev.relays[i])
    ensures R.GetRelayState(RestoreStates(dev), i) == R.StateText(dev.relays[i].data.lastState)
  {
  }

  // ---- Page paths ----

  /** The path starts with "/": `indexOf("/") == 0`. */
  predicate Rooted(p: string)
  {
    |p| > 0 && p[0] == '/'
  }

  /** The relay configuration page path gets a leading "/" if it lacks one. */
  function NormalizeConfigPage(p: string): (q: string)
    ensures Rooted(q)
    ensures Rooted(p) ==> q == p
    ensures !Rooted(p) ==> q == "/" + p
  {
    if Rooted(p) then p else "/" + p
  }

  /** The WiFi page path gets a leading "/" too, except that an empty path stays empty. */
  function NormalizeWifiPage(p: string): (q: string)
    ensures p == "" ==> q == ""
    ensures p != "" ==> Rooted(q)
    ensures Rooted(p) || p == "" ==> q == p
    ensures p != "" && !Rooted(p) ==> q == "/" + p
  {
    if |p| > 0 && !Rooted(p) then "/" + p else p
  }

  /** Normalising twice is normalising once. */
  lemma NormalizeIdempotent(p: string)
    ensures NormalizeConfigPage(NormalizeConfigPage(p)) == NormalizeConfigPage(p)
    ensures NormalizeWifiPage(NormalizeWifiPage(p)) == NormalizeWifiPage(p)
  {
  }

  /** Normalising only ever adds the one leading "/": the rest of the path is kept. */
  lemma NormalizeKeepsPath(p: string)
    ensures var q := NormalizeConfigPage(p); q[|q| - |p|..] == p && |q| - |p| <= 1
    ensures var q := NormalizeWifiPage(p); q[|q| - |p|..] == p && |q| - |p| <= 1
  {
  }
}
