/**
 * The UDP envelope shared by both device roles: a flat JSON object whose
 * members are read back as strings. JSON text itself is not modelled; a
 * datagram is the map of members the decoder produced, or None when the
 * bytes did not decode.
 */
module Wire {
  import opened Wrappers

  /** An IPv4 address as the firmware's `(uint32_t)IPAddress` cast sees it. */
  type Address = bv32

  /** Identifies the physical button bound to a relay or a binding. */
  type ButtonId = nat

  /** The members of a decoded JSON object, each as `as<String>()` renders it. */
  type Fields = map<string, string>

  /** A received datagram: None when the bytes are not valid JSON. */
  type Packet = Option<Fields>

  // Member names of the current protocol revision.
  const NameKey := "name"
  const CommandKey := "command"
  const ResponseKey := "resp"
  const ForKey := "for"
  const DescrKey := "descr"

  // Member name that the earlier revision uses for the relay name.
  const RelayKey := "relay"

  // Member values.
  const OkText := "ok"
  const OnText := "on"
  const OffText := "off"
  const SwitchCmd := "switch"
  const SetOnCmd := "set_on"
  const SetOffCmd := "set_off"
  const RespondCmd := "respond"
  const AnyRelay := "any_relay"
  const UnknownCommandText := "unknown command"

  /** How ArduinoJson renders an absent member (or a JSON null) as a String. */
  const NullText := "null"

  /** The text `as<String>()` yields for a member: "null" when it is absent. */
  function AsString(f: Fields, key: string): (r: string)
    ensures key !in f ==> r == NullText
    ensures key in f ==> r == f[key]
  {
    if key in f then f[key] else NullText
  }

  /**
   * getStringValue: the literal "null" becomes the empty string, any other
   * text is kept as it is.
   */
  function StringValue(v: string): (r: string)
    ensures r != NullText
    ensures r == v || (v == NullText && r == "")
  {
    if v != NullText then v else ""
  }

  /**
   * get_argument: the member's text, or "" when the datagram does not decode,
   * when the member is absent, or when its text is "null".
   */
  function GetArgument(p: Packet, key: string): (r: string)
    ensures r != NullText
    ensures p.None? ==> r == ""
    ensures p.Some? && key !in p.value ==> r == ""
    ensures p.Some? && key in p.value && p.value[key] != NullText ==> r == p.value[key]
    ensures r == "" || (p.Some? && key in p.value && p.value[key] == r)
  {
    match p
    case None => ""
    case Some(f) => StringValue(AsString(f, key))
  }

  /** A command datagram, switch to relay. */
  function CommandMsg(name: string, command: string): (f: Fields)
    ensures f.Keys == {NameKey, CommandKey}
    ensures GetArgument(Some(f), NameKey) == StringValue(name)
    ensures GetArgument(Some(f), CommandKey) == StringValue(command)
  {
    map[NameKey := name, CommandKey := command]
  }

  /** The discovery request every switch broadcasts. */
  function DiscoveryRequest(): Fields
  {
    CommandMsg(AnyRelay, RespondCmd)
  }

  /** A response datagram, relay to switch (get_json_string_to_send with four members). */
  function ResponseMsg(name: string, descr: string, resp: string, forCommand: string): (f: Fields)
    ensures f.Keys == {NameKey, DescrKey, ForKey, ResponseKey}
    ensures GetArgument(Some(f), NameKey) == StringValue(name)
    ensures GetArgument(Some(f), DescrKey) == StringValue(descr)
    ensures GetArgument(Some(f), ForKey) == StringValue(forCommand)
    ensures GetArgument(Some(f), ResponseKey) == StringValue(resp)
  {
    map[NameKey := name, DescrKey := descr, ForKey := forCommand, ResponseKey := resp]
  }

  /** What one step of a device asks of the outside world. */
  datatype Effect =
    | Send(to: Address, body: Fields)  // one UDP datagram
    | ErrorBeep(count: nat)            // error feedback with `count` beeps
    | SaveConfig                       // the configuration file is rewritten

  /** The new state of a device together with the effects it emitted, in order. */
  datatype Reaction<S> = Reaction(next: S, out: seq<Effect>)

  /**
   * The name-lookup loop shared by every getRelayIndexByName: the first index
   * holding `name`, or -1.
   */
  function FirstIndex(names: seq<string>, name: string): (r: int)
    ensures -1 <= r < |names|
    ensures r == -1 <==> name !in names
    ensures 0 <= r ==> names[r] == name && name !in names[..r]
  {
    if |names| == 0 then -1
    else if names[0] == name then 0
    else
      var k := FirstIndex(names[1..], name);
      if k < 0 then -1
      else
        assert names[..k + 1] == [names[0]] + names[1..][..k];
        k + 1
  }

  /**
   * getRelayIndexByName: looks up the datagram's `key` member among `names`.
   * An empty (or absent, "null" or undecodable) name matches nothing, so a
   * free slot, whose name is empty, is never returned.
   */
  function IndexByName(names: seq<string>, p: Packet, key: string): (r: int)
    ensures -1 <= r < |names|
    ensures r == -1 <==> GetArgument(p, key) == "" || GetArgument(p, key) !in names
    ensures 0 <= r ==> names[r] == GetArgument(p, key) != ""
    ensures 0 <= r ==> forall j :: 0 <= j < r ==> names[j] != names[r]
  {
    var name := GetArgument(p, key);
    if |name| > 0 then
      var k := FirstIndex(names, name);
      assert 0 <= k ==> forall j :: 0 <= j < k ==> names[..k][j] == names[j];
      k
    else -1
  }
}
